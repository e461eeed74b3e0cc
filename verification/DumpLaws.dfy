/** What dropping all exports conserves. */
module DumpLaws {
  import opened Text
  import opened ExportsText
  import opened ExportTable
  import opened ServiceTable
  import opened NfsServer
  import Paths

  function Elements(lines: seq<string>): set<string> {
    set l | l in lines
  }

  // --- Which lines a dump drops ---

  predicate IsDropped(root: string, line: string, lookup: string -> Lookup) {
    lookup(NameOf(root, line)).Resolved?
  }

  predicate IsReleased(root: string, line: string, lookup: string -> Lookup, unmounts: string -> bool) {
    IsDropped(root, line, lookup) && unmounts(NameOf(root, line))
  }

  predicate IsPutBack(root: string, line: string, lookup: string -> Lookup, unmounts: string -> bool) {
    IsDropped(root, line, lookup) && !unmounts(NameOf(root, line))
  }

  /** The lines that a dump which has come past the lines in `done` has not dropped. */
  ghost function Untouched(root: string, lines: seq<string>, done: set<string>, lookup: string -> Lookup): seq<string> {
    if lines == [] then []
    else
      var n := |lines| - 1;
      Untouched(root, lines[..n], done, lookup) +
      if lines[n] in done && IsDropped(root, lines[n], lookup) then [] else [lines[n]]
  }

  function PutBack(root: string, lines: seq<string>, lookup: string -> Lookup, unmounts: string -> bool): seq<string> {
    if lines == [] then []
    else
      var n := |lines| - 1;
      PutBack(root, lines[..n], lookup, unmounts) + if IsPutBack(root, lines[n], lookup, unmounts) then [lines[n]] else []
  }

  function Released(root: string, lines: seq<string>, lookup: string -> Lookup, unmounts: string -> bool): seq<string> {
    if lines == [] then []
    else
      var n := |lines| - 1;
      Released(root, lines[..n], lookup, unmounts) + if IsReleased(root, lines[n], lookup, unmounts) then [lines[n]] else []
  }

  function PathsOf(root: string, lines: seq<string>): set<string> {
    set l | l in lines :: ServicePath(root, NameOf(root, l))
  }

  // --- Tables that a dump handles line by line ---

  predicate Managed(root: string, line: string) {
    root <= line
  }

  /** Every managed line has options, starts with its cleaned directory, and no other line
      starts with that. */
  ghost predicate Tidy(root: string, lines: seq<string>) {
    && (forall i :: 0 <= i < |lines| ==> CleanLine(lines[i]))
    && (forall i :: 0 <= i < |lines| && Managed(root, lines[i]) ==>
          ' ' in lines[i] && DirectoryOf(lines[i]) <= Split(lines[i], ' ')[0])
    && forall i, j :: 0 <= i < |lines| && 0 <= j < |lines| && i != j && Managed(root, lines[i]) ==>
         !(DirectoryOf(lines[i]) <= lines[j])
  }

  lemma OwnPrefix(root: string, lines: seq<string>, e: string, l: string)
    requires Tidy(root, lines) && e in lines && Managed(root, e) && l in lines
    ensures DirectoryOf(e) <= l <==> l == e
  {
    var i :| 0 <= i < |lines| && lines[i] == e;
    var j :| 0 <= j < |lines| && lines[j] == l;
    SplitParts(e, ' ');
    assert DirectoryOf(e) <= Split(e, ' ')[0] <= e;
  }

  ghost predicate NoRepeats(lines: seq<string>) {
    forall i, j :: 0 <= i < j < |lines| ==> lines[i] != lines[j]
  }

  lemma {:induction false} ManagedLines(root: string, lines: seq<string>)
    requires forall i, j :: 0 <= i < j < |lines| && Managed(root, lines[i]) ==> lines[i] != lines[j]
    ensures NoRepeats(Matching(lines, root))
    ensures forall l :: l in Matching(lines, root) <==> l in lines && Managed(root, l)
  {
    MatchingFacts(lines, root);
    if lines != [] {
      var n := |lines| - 1;
      ManagedLines(root, lines[..n]);
      var front := Matching(lines[..n], root);
      forall i | 0 <= i < |front| && Managed(root, lines[n]) ensures front[i] != lines[n] {
        assert front[i] in lines[..n];
      }
    }
  }

  // --- One line of a fault-free dump ---

  lemma {:induction false} WithoutUntouched(root: string, all: seq<string>, lines: seq<string>, done: set<string>,
                                            e: string, lookup: string -> Lookup)
    requires Tidy(root, all) && e in all && Managed(root, e) && IsDropped(root, e, lookup)
    requires forall l :: l in lines ==> l in all
    ensures Without(Untouched(root, lines, done, lookup), DirectoryOf(e)) == Untouched(root, lines, done + {e}, lookup)
  {
    if lines != [] {
      var n := |lines| - 1;
      WithoutUntouched(root, all, lines[..n], done, e, lookup);
      OwnPrefix(root, all, e, lines[n]);
      var last := if lines[n] in done && IsDropped(root, lines[n], lookup) then [] else [lines[n]];
      WithoutAppend(Untouched(root, lines[..n], done, lookup), last, DirectoryOf(e));
      assert last == [lines[n]] ==> last[..0] == [];
    }
  }

  lemma {:induction false} UntouchedSkip(root: string, lines: seq<string>, done: set<string>, e: string, lookup: string -> Lookup)
    requires !IsDropped(root, e, lookup)
    ensures Untouched(root, lines, done + {e}, lookup) == Untouched(root, lines, done, lookup)
  {
    if lines != [] {
      UntouchedSkip(root, lines[..|lines| - 1], done, e, lookup);
    }
  }

  lemma {:induction false} UntouchedNone(root: string, lines: seq<string>, lookup: string -> Lookup)
    ensures Untouched(root, lines, {}, lookup) == lines
  {
    if lines != [] {
      var n := |lines| - 1;
      var front, last := lines[..n], lines[n];
      assert lines == front + [last];
      UntouchedNone(root, front, lookup);
      UntouchedStep(root, front, last, {}, lookup);
    }
  }

  lemma {:induction false} SelectedLines(root: string, lines: seq<string>, lookup: string -> Lookup, unmounts: string -> bool)
    ensures forall l :: l in PutBack(root, lines, lookup, unmounts) <==> l in lines && IsPutBack(root, l, lookup, unmounts)
    ensures forall l :: l in Released(root, lines, lookup, unmounts) <==> l in lines && IsReleased(root, l, lookup, unmounts)
  {
    if lines != [] {
      var n := |lines| - 1;
      SelectedLines(root, lines[..n], lookup, unmounts);
      assert lines == lines[..n] + [lines[n]];
    }
  }

  lemma {:induction false} UntouchedLines(root: string, lines: seq<string>, done: set<string>, lookup: string -> Lookup)
    ensures forall l :: l in Untouched(root, lines, done, lookup) <==>
                        l in lines && !(l in done && IsDropped(root, l, lookup))
  {
    if lines != [] {
      var n := |lines| - 1;
      UntouchedLines(root, lines[..n], done, lookup);
      assert lines == lines[..n] + [lines[n]];
    }
  }

  /** The table holds exactly these lines, each on a clean line, and counters in order. */
  ghost predicate TableHas(t: Table, lines: seq<string>) {
    t.text == Unlines(lines) && (forall l :: l in lines ==> CleanLine(l)) && t.synced <= t.generation
  }

  lemma TableLines(t: Table, lines: seq<string>)
    requires TableHas(t, lines)
    ensures TrimmedLines(t.text) == lines == ScanLines(t.text) && Canonical(t.text)
  {
    ReadBack(lines);
    UnlinesCanonical(lines);
  }

  lemma DeletedHas(t: Table, lines: seq<string>, directory: string, attempts: Attempts)
    requires TableHas(t, lines) && attempts.Succeed()
    ensures var (deleted, r) := Deleted(t, directory, NoFault);
            var (synced, ok) := Resynced(deleted, r.generation, attempts);
            r.ok && ok && TableHas(synced, Without(lines, directory)) && synced.kernel == synced.text
  {
    TableLines(t, lines);
    WithoutFacts(lines, directory);
  }

  lemma AddedHas(t: Table, lines: seq<string>, e: string, attempts: Attempts)
    requires TableHas(t, lines) && CleanLine(e) && ' ' in e && attempts.Succeed()
    requires !AnyMatch(lines, Split(e, ' ')[0])
    ensures var (added, r) := Added(t, Split(e, ' ')[0], Join(Split(e, ' ')[1..], ' '), NoFault);
            var synced := Resynced(added, r.generation, attempts).0;
            TableHas(synced, lines + [e]) && synced.kernel == synced.text
  {
    TableLines(t, lines);
    SplitParts(e, ' ');
    JoinSplit(e, ' ');
    var parts := Split(e, ' ');
    assert Entry(parts[0], Join(parts[1..], ' ')) == e;
    UnlinesAppend(lines, [e]);
    assert Unlines([e]) == e + "\n";
  }

  ghost predicate FaultFree(io: nat -> LineIo) {
    forall k :: io(k).delete.NoFault? && io(k).add.NoFault? && io(k).first.Succeed() && io(k).second.Succeed()
  }

  /** The state of a dump that has come past the first lines of `exports`. */
  ghost predicate Reached(d: Dump, start: Server, root: string, lines: seq<string>, past: seq<string>,
                          lookup: string -> Lookup, unmounts: string -> bool)
  {
    var back := PutBack(root, past, lookup, unmounts);
    var released := Released(root, past, lookup, unmounts);
    && TableHas(d.server.table, Untouched(root, lines, Elements(past), lookup) + back)
    && d.server.mounts == start.mounts - PathsOf(root, released)
    && d.removed == |released|
    && (d.ready <==> back == [])
    && d.ending == Going
    && (start.table.kernel == start.table.text ==> d.server.table.kernel == d.server.table.text)
  }

  lemma PutBackStays(root: string, lines: seq<string>, past: seq<string>, e: string,
                     lookup: string -> Lookup, unmounts: string -> bool)
    requires Tidy(root, lines) && e in lines && Managed(root, e) && e !in past
    requires forall l :: l in past ==> l in lines
    ensures Without(PutBack(root, past, lookup, unmounts), DirectoryOf(e)) == PutBack(root, past, lookup, unmounts)
  {
    var back := PutBack(root, past, lookup, unmounts);
    SelectedLines(root, past, lookup, unmounts);
    forall i | 0 <= i < |back| ensures !(DirectoryOf(e) <= back[i]) {
      assert back[i] in back;
      OwnPrefix(root, lines, e, back[i]);
    }
    WithoutFacts(back, DirectoryOf(e));
  }

  lemma DropRemovesOne(root: string, lines: seq<string>, past: seq<string>, e: string,
                       lookup: string -> Lookup, unmounts: string -> bool)
    requires Tidy(root, lines) && e in lines && Managed(root, e) && e !in past
    requires forall l :: l in past ==> l in lines
    requires IsDropped(root, e, lookup)
    ensures Without(Untouched(root, lines, Elements(past), lookup) + PutBack(root, past, lookup, unmounts), DirectoryOf(e))
            == Untouched(root, lines, Elements(past + [e]), lookup) + PutBack(root, past, lookup, unmounts)
  {
    var untouched, back := Untouched(root, lines, Elements(past), lookup), PutBack(root, past, lookup, unmounts);
    assert Without(untouched + back, DirectoryOf(e)) == Without(untouched, DirectoryOf(e)) + Without(back, DirectoryOf(e)) by {
      WithoutAppend(untouched, back, DirectoryOf(e));
    }
    assert Without(untouched, DirectoryOf(e)) == Untouched(root, lines, Elements(past) + {e}, lookup) by {
      WithoutUntouched(root, lines, lines, Elements(past), e, lookup);
    }
    assert Elements(past + [e]) == Elements(past) + {e};
    PutBackStays(root, lines, past, e, lookup, unmounts);
  }

  lemma NoPartMatch(root: string, lines: seq<string>, kept: seq<string>, e: string)
    requires Tidy(root, lines) && e in lines && Managed(root, e)
    requires !AnyMatch(kept, DirectoryOf(e))
    ensures !AnyMatch(kept, Split(e, ' ')[0]) && ' ' in e && CleanLine(e)
  {
    var i :| 0 <= i < |lines| && lines[i] == e;
    forall j | 0 <= j < |kept| ensures !(Split(e, ' ')[0] <= kept[j]) {
      assert DirectoryOf(e) <= Split(e, ' ')[0];
      assert !(DirectoryOf(e) <= kept[j]);
    }
  }

  lemma SelectionsStep(root: string, past: seq<string>, e: string, lookup: string -> Lookup, unmounts: string -> bool)
    ensures var back := PutBack(root, past, lookup, unmounts);
            PutBack(root, past + [e], lookup, unmounts) == if IsPutBack(root, e, lookup, unmounts) then back + [e] else back
    ensures var released := Released(root, past, lookup, unmounts);
            Released(root, past + [e], lookup, unmounts) == if IsReleased(root, e, lookup, unmounts) then released + [e] else released
  {
    assert (past + [e])[..|past|] == past;
  }

  lemma KeptLineReaches(d: Dump, start: Server, root: string, lines: seq<string>, past: seq<string>, e: string,
                        io: LineIo, lookup: string -> Lookup, unmounts: string -> bool)
    requires Reached(d, start, root, lines, past, lookup, unmounts)
    requires lookup(NameOf(root, e)).Unresolved?
    ensures Reached(DumpLine(d, root, e, io, lookup, unmounts), start, root, lines, past + [e], lookup, unmounts)
  {
    SelectionsStep(root, past, e, lookup, unmounts);
    assert Elements(past + [e]) == Elements(past) + {e};
    UntouchedSkip(root, lines, Elements(past), e, lookup);
  }

  /** The table after the deletion of a dropped line and its resync. */
  lemma DroppedTable(t: Table, root: string, lines: seq<string>, past: seq<string>, e: string, io: LineIo,
                     lookup: string -> Lookup, unmounts: string -> bool)
    requires Tidy(root, lines) && e in lines && Managed(root, e) && e !in past
    requires forall l :: l in past ==> l in lines
    requires TableHas(t, Untouched(root, lines, Elements(past), lookup) + PutBack(root, past, lookup, unmounts))
    requires io.delete.NoFault? && io.first.Succeed() && IsDropped(root, e, lookup)
    ensures var kept := Untouched(root, lines, Elements(past + [e]), lookup) + PutBack(root, past, lookup, unmounts);
            var (deleted, r) := Deleted(t, DirectoryOf(e), io.delete);
            var (synced, ok) := Resynced(deleted, r.generation, io.first);
            && r.ok && ok && TableHas(synced, kept) && synced.kernel == synced.text
            && !AnyMatch(kept, DirectoryOf(e))
  {
    var held := Untouched(root, lines, Elements(past), lookup) + PutBack(root, past, lookup, unmounts);
    DropRemovesOne(root, lines, past, e, lookup, unmounts);
    DeletedHas(t, held, DirectoryOf(e), io.first);
    WithoutFacts(held, DirectoryOf(e));
  }

  lemma ReleasedLineReaches(d: Dump, start: Server, root: string, lines: seq<string>, past: seq<string>, e: string,
                            io: LineIo, lookup: string -> Lookup, unmounts: string -> bool)
    requires Tidy(root, lines) && e in lines && Managed(root, e) && e !in past
    requires forall l :: l in past ==> l in lines
    requires Reached(d, start, root, lines, past, lookup, unmounts)
    requires io.delete.NoFault? && io.first.Succeed()
    ensures IsReleased(root, e, lookup, unmounts) ==>
              Reached(DumpLine(d, root, e, io, lookup, unmounts), start, root, lines, past + [e], lookup, unmounts)
  {
    if IsReleased(root, e, lookup, unmounts) {
      SelectionsStep(root, past, e, lookup, unmounts);
      DroppedTable(d.server.table, root, lines, past, e, io, lookup, unmounts);
      PathsStep(root, Released(root, past, lookup, unmounts), e, start.mounts);
    }
  }

  lemma PathsStep(root: string, released: seq<string>, e: string, mounts: set<string>)
    ensures mounts - PathsOf(root, released) - {ServicePath(root, NameOf(root, e))}
            == mounts - PathsOf(root, released + [e])
  {
    assert PathsOf(root, released + [e]) == PathsOf(root, released) + {ServicePath(root, NameOf(root, e))};
  }

  /** The table after a line was put back as well, and the edits resynced. */
  lemma PutBackTable(t: Table, root: string, lines: seq<string>, past: seq<string>, e: string, io: LineIo,
                     lookup: string -> Lookup, unmounts: string -> bool)
    requires Tidy(root, lines) && e in lines && Managed(root, e) && e !in past
    requires forall l :: l in past ==> l in lines
    requires TableHas(t, Untouched(root, lines, Elements(past), lookup) + PutBack(root, past, lookup, unmounts))
    requires io.delete.NoFault? && io.add.NoFault? && io.first.Succeed() && io.second.Succeed() && IsDropped(root, e, lookup)
    ensures var untouched := Untouched(root, lines, Elements(past + [e]), lookup);
            var (deleted, r) := Deleted(t, DirectoryOf(e), io.delete);
            var (synced, ok) := Resynced(deleted, r.generation, io.first);
            var (added, a) := Added(synced, Split(e, ' ')[0], Join(Split(e, ' ')[1..], ' '), io.add);
            var back := Resynced(added, a.generation, io.second).0;
            && r.ok && ok && back.kernel == back.text
            && TableHas(back, untouched + (PutBack(root, past, lookup, unmounts) + [e]))
  {
    var back := PutBack(root, past, lookup, unmounts);
    var untouched := Untouched(root, lines, Elements(past + [e]), lookup);
    DroppedTable(t, root, lines, past, e, io, lookup, unmounts);
    NoPartMatch(root, lines, untouched + back, e);
    var (deleted, r) := Deleted(t, DirectoryOf(e), io.delete);
    AddedHas(Resynced(deleted, r.generation, io.first).0, untouched + back, e, io.second);
    Associative(untouched, back, [e]);
  }

  lemma PutBackLineReaches(d: Dump, start: Server, root: string, lines: seq<string>, past: seq<string>, e: string,
                           io: LineIo, lookup: string -> Lookup, unmounts: string -> bool)
    requires Tidy(root, lines) && e in lines && Managed(root, e) && e !in past
    requires forall l :: l in past ==> l in lines
    requires Reached(d, start, root, lines, past, lookup, unmounts)
    requires io.delete.NoFault? && io.add.NoFault? && io.first.Succeed() && io.second.Succeed()
    ensures IsPutBack(root, e, lookup, unmounts) ==>
              Reached(DumpLine(d, root, e, io, lookup, unmounts), start, root, lines, past + [e], lookup, unmounts)
  {
    if IsPutBack(root, e, lookup, unmounts) {
      SelectionsStep(root, past, e, lookup, unmounts);
      PutBackTable(d.server.table, root, lines, past, e, io, lookup, unmounts);
    }
  }

  lemma DumpLineReaches(d: Dump, start: Server, root: string, lines: seq<string>, past: seq<string>, e: string,
                        io: LineIo, lookup: string -> Lookup, unmounts: string -> bool)
    requires Tidy(root, lines) && e in lines && Managed(root, e) && e !in past
    requires forall l :: l in past ==> l in lines
    requires Reached(d, start, root, lines, past, lookup, unmounts)
    requires io.delete.NoFault? && io.add.NoFault? && io.first.Succeed() && io.second.Succeed()
    requires !lookup(NameOf(root, e)).Missing?
    ensures Reached(DumpLine(d, root, e, io, lookup, unmounts), start, root, lines, past + [e], lookup, unmounts)
  {
    if IsReleased(root, e, lookup, unmounts) {
      ReleasedLineReaches(d, start, root, lines, past, e, io, lookup, unmounts);
    } else if IsPutBack(root, e, lookup, unmounts) {
      PutBackLineReaches(d, start, root, lines, past, e, io, lookup, unmounts);
    } else {
      KeptLineReaches(d, start, root, lines, past, e, io, lookup, unmounts);
    }
  }

  lemma NoneReached(start: Server, root: string, lines: seq<string>, lookup: string -> Lookup, unmounts: string -> bool)
    requires TableHas(start.table, lines)
    ensures Reached(Dump(start, true, 0, Going), start, root, lines, [], lookup, unmounts)
  {
    assert Elements([]) == {};
    UntouchedNone(root, lines, lookup);
    assert lines + [] == lines;
    assert PathsOf(root, []) == {};
  }

  lemma {:induction false} DumpReaches(start: Server, root: string, lines: seq<string>, past: seq<string>,
                                       io: nat -> LineIo, lookup: string -> Lookup, unmounts: string -> bool)
    requires Tidy(root, lines) && TableHas(start.table, lines)
    requires NoRepeats(past) && forall l :: l in past ==> l in lines && Managed(root, l)
    requires FaultFree(io)
    requires forall l :: l in past ==> !lookup(NameOf(root, l)).Missing?
    ensures Reached(DumpLines(Dump(start, true, 0, Going), root, past, io, lookup, unmounts),
                    start, root, lines, past, lookup, unmounts)
  {
    var first := Dump(start, true, 0, Going);
    if past == [] {
      NoneReached(start, root, lines, lookup, unmounts);
    } else {
      var n := |past| - 1;
      var front, e := past[..n], past[n];
      assert past == front + [e];
      assert e in past;
      forall i | 0 <= i < n ensures front[i] != e {
        assert past[i] != past[n];
      }
      DumpReaches(start, root, lines, front, io, lookup, unmounts);
      var d := DumpLines(first, root, front, io, lookup, unmounts);
      DumpLineReaches(d, start, root, lines, front, e, io(n), lookup, unmounts);
      DumpLinesStep(first, root, front, e, io, lookup, unmounts);
    }
  }

  // --- The whole dump ---

  lemma TidyFacts(root: string, lines: seq<string>)
    requires Tidy(root, lines)
    ensures NoRepeats(Matching(lines, root))
    ensures forall l :: l in Matching(lines, root) <==> l in lines && Managed(root, l)
  {
    forall i, j | 0 <= i < j < |lines| && Managed(root, lines[i]) ensures lines[i] != lines[j] {
      SplitParts(lines[i], ' ');
      assert DirectoryOf(lines[i]) <= Split(lines[i], ' ')[0] <= lines[i];
      assert !(DirectoryOf(lines[i]) <= lines[j]);
    }
    ManagedLines(root, lines);
  }

  /** A fault-free dump of a tidy table: the lines whose Service cannot be looked up stay
      where they were; those whose unmount failed come back, character for character, at
      the end; the others are gone and their volumes unmounted. `removed` counts those, and
      the node is ready exactly when none came back. */
  lemma DumpOutcome(start: Server, root: string, lines: seq<string>, io: nat -> LineIo,
                    lookup: string -> Lookup, unmounts: string -> bool)
    requires Tidy(root, lines) && TableHas(start.table, lines)
    requires FaultFree(io) && forall l :: l in lines && Managed(root, l) ==> !lookup(NameOf(root, l)).Missing?
    ensures var d := Pinged(start, root, NoFault, io, lookup, unmounts);
            var exports := Matching(lines, root);
            var back := PutBack(root, exports, lookup, unmounts);
            var released := Released(root, exports, lookup, unmounts);
            && ScanLines(d.server.table.text) == Untouched(root, lines, Elements(exports), lookup) + back
            && d.server.mounts == start.mounts - PathsOf(root, released)
            && d.removed == |released|
            && (d.ready <==> back == [])
            && d.ending == Going
            && (start.table.kernel == start.table.text ==> d.server.table.kernel == d.server.table.text)
  {
    TableLines(start.table, lines);
    TidyFacts(root, lines);
    var exports := Matching(lines, root);
    DumpReaches(start, root, lines, exports, io, lookup, unmounts);
    var d := Pinged(start, root, NoFault, io, lookup, unmounts);
    TableLines(d.server.table,
               Untouched(root, lines, Elements(exports), lookup) + PutBack(root, exports, lookup, unmounts));
  }

  /** One more line, which goes to one of three parts. */
  lemma PartitionStep(front: seq<string>, n: string, a: seq<string>, b: seq<string>, c: seq<string>, part: int)
    requires multiset(front) == multiset(a) + multiset(b) + multiset(c)
    ensures multiset(front + [n]) == multiset(if part == 0 then a + [n] else a)
                                   + multiset(if part == 1 then b + [n] else b)
                                   + multiset(if part != 0 && part != 1 then c + [n] else c)
  {
  }

  /** Which part a line goes to. */
  function PartOf(root: string, line: string, lookup: string -> Lookup, unmounts: string -> bool): int {
    if !Managed(root, line) || !IsDropped(root, line, lookup) then 0
    else if IsPutBack(root, line, lookup, unmounts) then 1 else 2
  }

  lemma PartsStep(root: string, front: seq<string>, n: string, done: set<string>,
                  lookup: string -> Lookup, unmounts: string -> bool)
    requires n in done <==> Managed(root, n)
    ensures var part := PartOf(root, n, lookup, unmounts);
            var untouched := Untouched(root, front, done, lookup);
            var back := PutBack(root, Matching(front, root), lookup, unmounts);
            var released := Released(root, Matching(front, root), lookup, unmounts);
            && Untouched(root, front + [n], done, lookup) == (if part == 0 then untouched + [n] else untouched)
            && PutBack(root, Matching(front + [n], root), lookup, unmounts) == (if part == 1 then back + [n] else back)
            && Released(root, Matching(front + [n], root), lookup, unmounts) == (if part == 2 then released + [n] else released)
  {
    UntouchedStep(root, front, n, done, lookup);
    MatchingStep(front, n, root);
    if Managed(root, n) {
      SelectionsStep(root, Matching(front, root), n, lookup, unmounts);
    }
  }

  lemma UntouchedStep(root: string, front: seq<string>, n: string, done: set<string>, lookup: string -> Lookup)
    ensures var untouched := Untouched(root, front, done, lookup);
            Untouched(root, front + [n], done, lookup) ==
            if n in done && IsDropped(root, n, lookup) then untouched else untouched + [n]
  {
    assert (front + [n])[..|front|] == front;
  }

  lemma MatchingStep(front: seq<string>, n: string, root: string)
    ensures Matching(front + [n], root) == if Managed(root, n) then Matching(front, root) + [n] else Matching(front, root)
  {
    assert (front + [n])[..|front|] == front;
  }

  ghost predicate Partitioned(root: string, lines: seq<string>, done: set<string>,
                              lookup: string -> Lookup, unmounts: string -> bool)
  {
    var exports := Matching(lines, root);
    multiset(lines) == multiset(Untouched(root, lines, done, lookup))
                     + multiset(PutBack(root, exports, lookup, unmounts))
                     + multiset(Released(root, exports, lookup, unmounts))
  }

  lemma PartitionOne(root: string, front: seq<string>, n: string, done: set<string>,
                     lookup: string -> Lookup, unmounts: string -> bool)
    requires n in done <==> Managed(root, n)
    requires Partitioned(root, front, done, lookup, unmounts)
    ensures Partitioned(root, front + [n], done, lookup, unmounts)
  {
    var exports := Matching(front, root);
    var part := PartOf(root, n, lookup, unmounts);
    PartsStep(root, front, n, done, lookup, unmounts);
    PartitionStep(front, n, Untouched(root, front, done, lookup), PutBack(root, exports, lookup, unmounts),
                  Released(root, exports, lookup, unmounts), part);
  }

  /** Every line is untouched, put back or released, and only one of these. */
  lemma {:induction false} Partition(root: string, lines: seq<string>, done: set<string>,
                                     lookup: string -> Lookup, unmounts: string -> bool)
    requires forall l :: l in lines ==> (l in done <==> Managed(root, l))
    ensures Partitioned(root, lines, done, lookup, unmounts)
  {
    if lines != [] {
      var n := |lines| - 1;
      var front, last := lines[..n], lines[n];
      assert front + [last] == lines;
      assert last in lines;
      Partition(root, front, done, lookup, unmounts);
      PartitionOne(root, front, last, done, lookup, unmounts);
    }
  }

  /** The dump conserves exports: the final lines are, as a multiset, the initial ones less
      those whose Service was found and whose volume was unmounted. */
  lemma DumpConserves(start: Server, root: string, lines: seq<string>, io: nat -> LineIo,
                      lookup: string -> Lookup, unmounts: string -> bool)
    requires Tidy(root, lines) && TableHas(start.table, lines)
    requires FaultFree(io) && forall l :: l in lines && Managed(root, l) ==> !lookup(NameOf(root, l)).Missing?
    ensures var d := Pinged(start, root, NoFault, io, lookup, unmounts);
            var released := Released(root, Matching(lines, root), lookup, unmounts);
            && multiset(ScanLines(d.server.table.text)) + multiset(released) == multiset(lines)
            && |ScanLines(d.server.table.text)| + d.removed == |lines|
            && (forall l :: l in released <==> l in lines && Managed(root, l) && IsReleased(root, l, lookup, unmounts))
  {
    DumpOutcome(start, root, lines, io, lookup, unmounts);
    TidyFacts(root, lines);
    var exports := Matching(lines, root);
    var done := Elements(exports);
    Partition(root, lines, done, lookup, unmounts);
    SelectedLines(root, exports, lookup, unmounts);
    var untouched := Untouched(root, lines, done, lookup);
    var back := PutBack(root, exports, lookup, unmounts);
    var released := Released(root, exports, lookup, unmounts);
    assert multiset(untouched + back) == multiset(untouched) + multiset(back);
    assert |multiset(untouched + back)| + |multiset(released)| == |multiset(lines)|;
  }

  /** The same, line by line. */
  lemma DumpByLine(start: Server, root: string, lines: seq<string>, io: nat -> LineIo,
                   lookup: string -> Lookup, unmounts: string -> bool)
    requires Tidy(root, lines) && TableHas(start.table, lines)
    requires FaultFree(io) && forall l :: l in lines && Managed(root, l) ==> !lookup(NameOf(root, l)).Missing?
    ensures var d := Pinged(start, root, NoFault, io, lookup, unmounts);
            var left := ScanLines(d.server.table.text);
            && (forall l :: l in lines ==>
                  (l in left <==> !(Managed(root, l) && IsReleased(root, l, lookup, unmounts))))
            && |left| + d.removed == |lines|
            && (d.ready <==> forall l :: l in lines && Managed(root, l) && IsDropped(root, l, lookup) ==>
                               unmounts(NameOf(root, l)))
  {
    DumpOutcome(start, root, lines, io, lookup, unmounts);
    DumpConserves(start, root, lines, io, lookup, unmounts);
    LeftByLine(root, lines, lookup, unmounts);
  }

  lemma LeftByLine(root: string, lines: seq<string>, lookup: string -> Lookup, unmounts: string -> bool)
    requires Tidy(root, lines)
    ensures var exports := Matching(lines, root);
            var back := PutBack(root, exports, lookup, unmounts);
            var left := Untouched(root, lines, Elements(exports), lookup) + back;
            && (forall l :: l in lines ==> (l in left <==> !(Managed(root, l) && IsReleased(root, l, lookup, unmounts))))
            && (back == [] <==> forall l :: l in lines && Managed(root, l) && IsDropped(root, l, lookup) ==>
                                  unmounts(NameOf(root, l)))
  {
    TidyFacts(root, lines);
    var exports := Matching(lines, root);
    SelectedLines(root, exports, lookup, unmounts);
    UntouchedLines(root, lines, Elements(exports), lookup);
    var back := PutBack(root, exports, lookup, unmounts);
    assert back != [] ==> back[0] in back;
  }

  /** A fault-free dump that reports the node ready has left no line whose Service can be
      looked up. */
  lemma ReadyDumpLeavesNothing(start: Server, root: string, lines: seq<string>, io: nat -> LineIo,
                               lookup: string -> Lookup, unmounts: string -> bool)
    requires Tidy(root, lines) && TableHas(start.table, lines)
    requires FaultFree(io) && forall l :: l in lines && Managed(root, l) ==> !lookup(NameOf(root, l)).Missing?
    requires Pinged(start, root, NoFault, io, lookup, unmounts).ready
    ensures forall l :: l in ScanLines(Pinged(start, root, NoFault, io, lookup, unmounts).server.table.text) ==>
              l in lines && !(Managed(root, l) && IsDropped(root, l, lookup))
  {
    DumpByLine(start, root, lines, io, lookup, unmounts);
    DumpConserves(start, root, lines, io, lookup, unmounts);
    var left := ScanLines(Pinged(start, root, NoFault, io, lookup, unmounts).server.table.text);
    forall l | l in left ensures l in lines {
      assert l in multiset(left);
      assert l in multiset(lines);
    }
  }

  // --- The module's own tables are tidy ---

  ghost predicate Incomparable(lines: seq<Line>) {
    forall i, j :: 0 <= i < |lines| && 0 <= j < |lines| && i != j && lines[i].Service? && lines[j].Service? ==>
      !(lines[i].name <= lines[j].name)
  }

  lemma ServiceLineParts(root: string, name: string, options: string)
    requires Paths.CleanRoot(root) && Paths.PlainName(name)
    ensures var line := Render(root, Service(name, options));
            && Split(line, ' ')[0] == ServiceDirectory(root, name)
            && DirectoryOf(line) == ServicePath(root, name)
            && NameOf(root, line) == name
            && ' ' in line
  {
    var directory := ServiceDirectory(root, name);
    assert ' ' !in directory;
    assert Render(root, Service(name, options)) == directory + [' '] + options;
    SplitFirst(directory, options, ' ');
    Paths.CleanDirectory(root, name);
    Paths.ServiceOfPath(root, name);
  }

  /** Services with plain names, among lines that do not start with the export directory. */
  ghost predicate ServicesOnly(root: string, lines: seq<Line>) {
    && Valid(root, lines) && Paths.CleanRoot(root)
    && (forall i :: 0 <= i < |lines| && lines[i].Service? ==> Paths.PlainName(lines[i].name))
    && forall i :: 0 <= i < |lines| && lines[i].Foreign? ==> !Managed(root, lines[i].text)
  }

  ghost predicate DumpReady(root: string, lines: seq<Line>) {
    ServicesOnly(root, lines) && Incomparable(lines)
  }

  lemma ServiceLineReads(root: string, lines: seq<Line>, i: nat)
    requires ServicesOnly(root, lines) && i < |lines| && lines[i].Service?
    ensures var line := Render(root, lines[i]);
            && ' ' in line && DirectoryOf(line) <= Split(line, ' ')[0]
            && NameOf(root, line) == lines[i].name
            && Managed(root, line)
            && forall j :: 0 <= j < |lines| ==> (DirectoryOf(line) <= Render(root, lines[j]) <==> Extends(lines[j], lines[i].name))
  {
    var name, options := lines[i].name, lines[i].options;
    assert lines[i] == Service(name, options);
    ServiceLineParts(root, name, options);
    ServiceLine(root, name, options);
    assert root <= root + "/";
    forall j | 0 <= j < |lines| ensures ServicePath(root, name) <= Render(root, lines[j]) <==> Extends(lines[j], name) {
      PrefixMeaning(root, name, lines[j]);
    }
  }

  lemma RenderedAreClean(root: string, lines: seq<Line>)
    requires Valid(root, lines)
    ensures forall i :: 0 <= i < |lines| ==> CleanLine(RenderAll(root, lines)[i])
  {
    FileLines(root, lines);
    forall i | 0 <= i < |lines| ensures CleanLine(RenderAll(root, lines)[i]) {
      assert RenderAll(root, lines)[i] in RenderAll(root, lines);
    }
  }

  /** A table of Services whose names are no prefixes of each other, among lines that do
      not start with the export directory, is tidy, and a dump reads the names off it. */
  lemma ServiceTableIsTidy(root: string, lines: seq<Line>)
    requires DumpReady(root, lines)
    ensures Tidy(root, RenderAll(root, lines))
    ensures forall i :: 0 <= i < |lines| ==>
              && (Managed(root, Render(root, lines[i])) <==> lines[i].Service?)
              && (lines[i].Service? ==> NameOf(root, Render(root, lines[i])) == lines[i].name)
  {
    RenderedAreClean(root, lines);
    forall i | 0 <= i < |lines| && lines[i].Service?
      ensures var line := RenderAll(root, lines)[i];
              && ' ' in line && DirectoryOf(line) <= Split(line, ' ')[0]
              && Managed(root, line) && NameOf(root, line) == lines[i].name
              && forall j :: 0 <= j < |lines| && i != j ==> !(DirectoryOf(line) <= RenderAll(root, lines)[j])
    {
      ServiceLineReads(root, lines, i);
    }
  }

  /** How the lines of such a table read, line by line. */
  lemma RenderedLines(root: string, lines: seq<Line>)
    requires Valid(root, lines)
    ensures TableHas(Table(FileText(root, lines), 0, 0, 0, ""), RenderAll(root, lines))
    ensures forall i :: 0 <= i < |lines| ==> Render(root, lines[i]) in RenderAll(root, lines)
    ensures forall l :: l in RenderAll(root, lines) ==> exists i :: 0 <= i < |lines| && Render(root, lines[i]) == l
  {
    FileLines(root, lines);
    forall i | 0 <= i < |lines| ensures Render(root, lines[i]) in RenderAll(root, lines) {
      assert RenderAll(root, lines)[i] == Render(root, lines[i]);
    }
    forall l | l in RenderAll(root, lines) ensures exists i :: 0 <= i < |lines| && Render(root, lines[i]) == l {
      var i :| 0 <= i < |lines| && RenderAll(root, lines)[i] == l;
      assert Render(root, lines[i]) == l;
    }
  }

  ghost predicate NoneMissing(lines: seq<Line>, lookup: string -> Lookup) {
    forall i :: 0 <= i < |lines| && lines[i].Service? ==> !lookup(lines[i].name).Missing?
  }

  /** The Services whose volumes stayed mounted although they were found. */
  predicate IsStuck(line: Line, lookup: string -> Lookup, unmounts: string -> bool) {
    line.Service? && lookup(line.name).Resolved? && !unmounts(line.name)
  }

  predicate IsGone(line: Line, lookup: string -> Lookup, unmounts: string -> bool) {
    line.Service? && lookup(line.name).Resolved? && unmounts(line.name)
  }

  lemma RenderedSelections(root: string, line: Line, lookup: string -> Lookup, unmounts: string -> bool)
    requires Managed(root, Render(root, line)) <==> line.Service?
    requires line.Service? ==> NameOf(root, Render(root, line)) == line.name
    ensures var l := Render(root, line);
            && (Managed(root, l) && IsReleased(root, l, lookup, unmounts) <==> IsGone(line, lookup, unmounts))
            && (Managed(root, l) && IsDropped(root, l, lookup) && !unmounts(NameOf(root, l)) <==> IsStuck(line, lookup, unmounts))
            && (Managed(root, l) && lookup(NameOf(root, l)).Missing? <==> line.Service? && lookup(line.name).Missing?)
  {
  }

  /** A fault-free dump of such a table drops exactly the Services that were found and
      whose volumes were unmounted, keeps all other lines, and reports the node ready
      exactly when no found Service's volume stayed mounted. */
  lemma DumpOfServiceTable(start: Server, root: string, lines: seq<Line>, io: nat -> LineIo,
                           lookup: string -> Lookup, unmounts: string -> bool)
    requires DumpReady(root, lines)
    requires NoneMissing(lines, lookup)
    requires start.table.text == FileText(root, lines) && start.table.synced <= start.table.generation
    requires FaultFree(io)
    ensures var d := Pinged(start, root, NoFault, io, lookup, unmounts);
            var left := ScanLines(d.server.table.text);
            && (forall i :: 0 <= i < |lines| ==> (Render(root, lines[i]) in left <==> !IsGone(lines[i], lookup, unmounts)))
            && |left| + d.removed == |lines|
            && (d.ready <==> forall i :: 0 <= i < |lines| ==> !IsStuck(lines[i], lookup, unmounts))
  {
    var rendered := RenderAll(root, lines);
    ServiceTableIsTidy(root, lines);
    RenderedLines(root, lines);
    forall i | 0 <= i < |lines|
      ensures var l := Render(root, lines[i]);
              && (Managed(root, l) && IsReleased(root, l, lookup, unmounts) <==> IsGone(lines[i], lookup, unmounts))
              && (Managed(root, l) && IsDropped(root, l, lookup) && !unmounts(NameOf(root, l)) <==> IsStuck(lines[i], lookup, unmounts))
              && !(Managed(root, l) && lookup(NameOf(root, l)).Missing?)
    {
      RenderedSelections(root, lines[i], lookup, unmounts);
    }
    forall l | l in rendered && Managed(root, l) ensures !lookup(NameOf(root, l)).Missing? {
      var i :| 0 <= i < |lines| && Render(root, lines[i]) == l;
    }
    DumpByLine(start, root, rendered, io, lookup, unmounts);
  }

  // --- What the assumptions keep out ---

  lemma PathsDiffer(root: string, a: string, b: string)
    ensures ServicePath(root, a) == ServicePath(root, b) <==> a == b
  {
    var p := root + "/";
    assert (p + a)[|p|..] == a && (p + b)[|p|..] == b;
  }

  /** If the resync after a deletion fails, the dump ends there: the export is gone from
      the file, its volume is still mounted, and the reply, that comes with an error, says
      ready. */
  lemma FailedResyncEndsDump(d: Dump, root: string, line: string, io: LineIo,
                             lookup: string -> Lookup, unmounts: string -> bool)
    requires d.ending.Going? && IsDropped(root, line, lookup)
    requires d.server.table.synced <= d.server.table.generation
    requires io.delete.NoFault? && !io.first.Succeed()
    ensures var after := DumpLine(d, root, line, io, lookup, unmounts);
            && after.ending == Aborted && after.ready == d.ready && after.removed == d.removed + 1
            && !Listed(after.server.table.text, DirectoryOf(line))
            && after.server.mounts == d.server.mounts && after.server.table.kernel == d.server.table.kernel
  {
    DeletedLines(d.server.table.text, DirectoryOf(line));
  }

  /** A line at which a dump cannot go on: its lookup gave neither a Service nor an error,
      or its deletion was done and could not be resynced. */
  predicate Stops(root: string, line: string, io: LineIo, lookup: string -> Lookup) {
    lookup(NameOf(root, line)).Missing? || (IsDropped(root, line, lookup) && io.delete.NoFault? && !io.first.Succeed())
  }

  /** Every line so far let the dump go on. */
  ghost predicate GoesOn(root: string, lines: seq<string>, io: nat -> LineIo, lookup: string -> Lookup) {
    forall k :: 0 <= k < |lines| ==> !Stops(root, lines[k], io(k), lookup)
  }

  /** The dump comes to line i, whose lookup gave neither a Service nor an error. */
  ghost predicate MissingAt(root: string, lines: seq<string>, i: int, io: nat -> LineIo, lookup: string -> Lookup) {
    0 <= i < |lines| && lookup(NameOf(root, lines[i])).Missing? && GoesOn(root, lines[..i], io, lookup)
  }

  ghost predicate MeetsMissing(root: string, lines: seq<string>, io: nat -> LineIo, lookup: string -> Lookup) {
    exists i :: MissingAt(root, lines, i, io, lookup)
  }

  lemma LineEnding(d: Dump, root: string, line: string, io: LineIo, lookup: string -> Lookup, unmounts: string -> bool)
    requires d.server.table.synced <= d.server.table.generation && !io.delete.WriteFails?
    ensures var after := DumpLine(d, root, line, io, lookup, unmounts);
            && after.server.table.synced <= after.server.table.generation
            && after.ending == if !d.ending.Going? || !Stops(root, line, io, lookup) then d.ending
                               else if lookup(NameOf(root, line)).Missing? then Crashed else Aborted
  {
    if d.ending.Going? && IsDropped(root, line, lookup) {
      var table, directory, parts := d.server.table, DirectoryOf(line), Split(line, ' ');
      DeletedInOrder(table, directory, io.delete, io.first);
      var (deleted, r) := Deleted(table, directory, io.delete);
      var synced := Resynced(deleted, r.generation, io.first).0;
      AddedInOrder(synced, parts[0], Join(parts[1..], ' '), io.add, io.second);
    }
  }

  lemma DeletedInOrder(t: Table, directory: string, fault: Fault, attempts: Attempts)
    requires t.synced <= t.generation && !fault.WriteFails?
    ensures var (deleted, r) := Deleted(t, directory, fault);
            var (synced, ok) := Resynced(deleted, r.generation, attempts);
            && r.ok == fault.NoFault? && (r.ok ==> ok == attempts.Succeed())
            && deleted.synced <= deleted.generation && synced.synced <= synced.generation
  {
  }

  lemma AddedInOrder(t: Table, directory: string, options: string, fault: Fault, attempts: Attempts)
    requires t.synced <= t.generation
    ensures var (added, r) := Added(t, directory, options, fault);
            var synced := Resynced(added, r.generation, attempts).0;
            synced.synced <= synced.generation
  {
  }

  lemma MissingStep(root: string, front: seq<string>, e: string, io: nat -> LineIo, lookup: string -> Lookup)
    ensures GoesOn(root, front + [e], io, lookup) <==> GoesOn(root, front, io, lookup) && !Stops(root, e, io(|front|), lookup)
    ensures MeetsMissing(root, front + [e], io, lookup) <==>
            MeetsMissing(root, front, io, lookup) ||
            (GoesOn(root, front, io, lookup) && lookup(NameOf(root, e)).Missing?)
  {
    GoesOnStep(root, front, e, io, lookup);
    if MeetsMissing(root, front + [e], io, lookup) {
      var i :| MissingAt(root, front + [e], i, io, lookup);
      MissingAtStep(root, front, e, i, io, lookup);
    }
    if i :| MissingAt(root, front, i, io, lookup) {
      MissingAtStep(root, front, e, i, io, lookup);
    }
    MissingAtStep(root, front, e, |front|, io, lookup);
  }

  lemma GoesOnStep(root: string, front: seq<string>, e: string, io: nat -> LineIo, lookup: string -> Lookup)
    ensures GoesOn(root, front + [e], io, lookup) <==> GoesOn(root, front, io, lookup) && !Stops(root, e, io(|front|), lookup)
  {
    var lines := front + [e];
    assert lines[|front|] == e;
    assert forall k :: 0 <= k < |front| ==> lines[k] == front[k];
  }

  lemma MissingAtStep(root: string, front: seq<string>, e: string, i: int, io: nat -> LineIo, lookup: string -> Lookup)
    ensures MissingAt(root, front + [e], i, io, lookup) <==>
            if i == |front| then GoesOn(root, front, io, lookup) && lookup(NameOf(root, e)).Missing?
            else MissingAt(root, front, i, io, lookup)
  {
    if 0 <= i <= |front| {
      assert (front + [e])[..i] == front[..i];
      assert front[..|front|] == front;
    }
  }

  lemma {:induction false} DumpEnding(d: Dump, root: string, lines: seq<string>, io: nat -> LineIo,
                                      lookup: string -> Lookup, unmounts: string -> bool)
    requires d.ending == Going && d.server.table.synced <= d.server.table.generation
    requires forall k :: !io(k).delete.WriteFails?
    ensures var after := DumpLines(d, root, lines, io, lookup, unmounts);
            && after.server.table.synced <= after.server.table.generation
            && (after.ending.Going? <==> GoesOn(root, lines, io, lookup))
            && (after.ending.Crashed? <==> MeetsMissing(root, lines, io, lookup))
  {
    if lines != [] {
      var n := |lines| - 1;
      var front, e := lines[..n], lines[n];
      assert lines == front + [e];
      DumpEnding(d, root, front, io, lookup, unmounts);
      DumpLinesStep(d, root, front, e, io, lookup, unmounts);
      LineEnding(DumpLines(d, root, front, io, lookup, unmounts), root, e, io(n), lookup, unmounts);
      MissingStep(root, front, e, io, lookup);
    }
  }

  /** A dump of a readable file crashes exactly when some line's lookup gave neither a
      Service nor an error and no line before it ended the dump: none of them had such a
      lookup, or was deleted without a resync that succeeded. */
  lemma CrashesIff(start: Server, root: string, io: nat -> LineIo, lookup: string -> Lookup, unmounts: string -> bool)
    requires start.table.synced <= start.table.generation
    requires forall k :: !io(k).delete.WriteFails?
    ensures Pinged(start, root, NoFault, io, lookup, unmounts).ending.Crashed? <==>
            MeetsMissing(root, Matching(ScanLines(start.table.text), root), io, lookup)
  {
    DumpEnding(Dump(start, true, 0, Going), root, Matching(ScanLines(start.table.text), root), io, lookup, unmounts);
  }
}

/** Dumps of tables whose directories may be prefixes of each other. A deletion then sweeps
    other lines along; the dump still conserves exports exactly if these come to the same
    end, or are put back later. */
module DumpSweeps {
  import opened Text
  import opened ExportsText
  import opened ExportTable
  import opened ServiceTable
  import opened NfsServer
  import opened DumpLaws
  import Paths

  /** Every managed line has options and starts with its cleaned directory. */
  ghost predicate Readable(root: string, line: string) {
    CleanLine(line) &&
    (Managed(root, line) ==> ' ' in line && DirectoryOf(line) <= Split(line, ' ')[0])
  }

  ghost predicate AllReadable(root: string, lines: seq<string>) {
    forall i :: 0 <= i < |lines| ==> Readable(root, lines[i])
  }

  predicate Sweeps(root: string, line: string, lookup: string -> Lookup) {
    Managed(root, line) && IsDropped(root, line, lookup)
  }

  predicate Goes(root: string, line: string, lookup: string -> Lookup, unmounts: string -> bool) {
    Managed(root, line) && IsReleased(root, line, lookup, unmounts)
  }

  predicate ComesBack(root: string, line: string, lookup: string -> Lookup, unmounts: string -> bool) {
    Managed(root, line) && IsPutBack(root, line, lookup, unmounts)
  }

  /** The lines after the dump has come past one of them. */
  function SweptByOne(root: string, lines: seq<string>, e: string, lookup: string -> Lookup, unmounts: string -> bool): seq<string> {
    if !Sweeps(root, e, lookup) then lines
    else Without(lines, DirectoryOf(e)) + if ComesBack(root, e, lookup, unmounts) then [e] else []
  }

  function Swept(root: string, lines: seq<string>, done: seq<string>, lookup: string -> Lookup, unmounts: string -> bool): seq<string> {
    if done == [] then lines
    else
      var n := |done| - 1;
      SweptByOne(root, Swept(root, lines, done[..n], lookup, unmounts), done[n], lookup, unmounts)
  }

  // --- The dump computes it ---

  lemma DirectoryIsPrefix(root: string, e: string)
    requires Readable(root, e) && Managed(root, e)
    ensures DirectoryOf(e) <= e
  {
    SplitParts(e, ' ');
  }

  ghost predicate Follows(d: Dump, start: Server, root: string, lines: seq<string>, done: seq<string>,
                          lookup: string -> Lookup, unmounts: string -> bool)
  {
    var released := Released(root, Matching(done, root), lookup, unmounts);
    && TableHas(d.server.table, Swept(root, lines, done, lookup, unmounts))
    && d.server.mounts == start.mounts - PathsOf(root, released)
    && d.removed == |released|
    && (d.ready <==> PutBack(root, Matching(done, root), lookup, unmounts) == [])
    && d.ending == Going
  }

  lemma DropFollows(t: Table, root: string, lines: seq<string>, e: string, io: LineIo,
                    lookup: string -> Lookup, unmounts: string -> bool)
    requires TableHas(t, lines) && Readable(root, e) && Sweeps(root, e, lookup)
    requires io.delete.NoFault? && io.add.NoFault? && io.first.Succeed() && io.second.Succeed()
    ensures var (deleted, r) := Deleted(t, DirectoryOf(e), io.delete);
            var (synced, ok) := Resynced(deleted, r.generation, io.first);
            var (added, a) := Added(synced, Split(e, ' ')[0], Join(Split(e, ' ')[1..], ' '), io.add);
            var back := Resynced(added, a.generation, io.second).0;
            && r.ok && ok
            && TableHas(synced, Without(lines, DirectoryOf(e)))
            && TableHas(back, Without(lines, DirectoryOf(e)) + [e])
  {
    var kept := Without(lines, DirectoryOf(e));
    DeletedHas(t, lines, DirectoryOf(e), io.first);
    WithoutFacts(lines, DirectoryOf(e));
    forall j | 0 <= j < |kept| ensures !(Split(e, ' ')[0] <= kept[j]) {
      assert !(DirectoryOf(e) <= kept[j]);
    }
    var (deleted, r) := Deleted(t, DirectoryOf(e), io.delete);
    AddedHas(Resynced(deleted, r.generation, io.first).0, kept, e, io.second);
  }

  lemma ReleasedFollows(d: Dump, root: string, lines: seq<string>, e: string, io: LineIo,
                        lookup: string -> Lookup, unmounts: string -> bool)
    requires TableHas(d.server.table, lines) && d.ending == Going && Readable(root, e) && Managed(root, e)
    requires io.delete.NoFault? && io.add.NoFault? && io.first.Succeed() && io.second.Succeed()
    requires IsReleased(root, e, lookup, unmounts)
    ensures var after := DumpLine(d, root, e, io, lookup, unmounts);
            && TableHas(after.server.table, Without(lines, DirectoryOf(e))) && after.ending == Going
            && after.server.mounts == d.server.mounts - {ServicePath(root, NameOf(root, e))} && after.removed == d.removed + 1
            && after.ready == d.ready
  {
    DropFollows(d.server.table, root, lines, e, io, lookup, unmounts);
  }

  lemma PutBackFollows(d: Dump, root: string, lines: seq<string>, e: string, io: LineIo,
                       lookup: string -> Lookup, unmounts: string -> bool)
    requires TableHas(d.server.table, lines) && d.ending == Going && Readable(root, e) && Managed(root, e)
    requires io.delete.NoFault? && io.add.NoFault? && io.first.Succeed() && io.second.Succeed()
    requires IsPutBack(root, e, lookup, unmounts)
    ensures var after := DumpLine(d, root, e, io, lookup, unmounts);
            && TableHas(after.server.table, Without(lines, DirectoryOf(e)) + [e]) && after.ending == Going
            && after.server.mounts == d.server.mounts && after.removed == d.removed && !after.ready
  {
    DropFollows(d.server.table, root, lines, e, io, lookup, unmounts);
  }

  lemma LineFollows(d: Dump, root: string, lines: seq<string>, e: string, io: LineIo,
                    lookup: string -> Lookup, unmounts: string -> bool)
    requires TableHas(d.server.table, lines) && d.ending == Going && Readable(root, e) && Managed(root, e)
    requires io.delete.NoFault? && io.add.NoFault? && io.first.Succeed() && io.second.Succeed()
    requires !lookup(NameOf(root, e)).Missing?
    ensures var after := DumpLine(d, root, e, io, lookup, unmounts);
            && TableHas(after.server.table, SweptByOne(root, lines, e, lookup, unmounts))
            && after.ending == Going
            && (after.ready <==> d.ready && !ComesBack(root, e, lookup, unmounts))
            && (if Goes(root, e, lookup, unmounts) then
                  after.server.mounts == d.server.mounts - {ServicePath(root, NameOf(root, e))} && after.removed == d.removed + 1
                else after.server.mounts == d.server.mounts && after.removed == d.removed)
  {
    if IsReleased(root, e, lookup, unmounts) {
      ReleasedFollows(d, root, lines, e, io, lookup, unmounts);
      assert SweptByOne(root, lines, e, lookup, unmounts) == Without(lines, DirectoryOf(e));
    } else if IsPutBack(root, e, lookup, unmounts) {
      PutBackFollows(d, root, lines, e, io, lookup, unmounts);
    } else {
      assert DumpLine(d, root, e, io, lookup, unmounts) == d;
    }
  }

  lemma SweptStep(root: string, lines: seq<string>, front: seq<string>, e: string, lookup: string -> Lookup, unmounts: string -> bool)
    ensures Swept(root, lines, front + [e], lookup, unmounts)
            == SweptByOne(root, Swept(root, lines, front, lookup, unmounts), e, lookup, unmounts)
  {
    assert (front + [e])[..|front|] == front;
  }

  lemma StepFollows(d: Dump, start: Server, root: string, lines: seq<string>, front: seq<string>, e: string, io: LineIo,
                    lookup: string -> Lookup, unmounts: string -> bool)
    requires Follows(d, start, root, lines, front, lookup, unmounts) && Readable(root, e) && Managed(root, e)
    requires io.delete.NoFault? && io.add.NoFault? && io.first.Succeed() && io.second.Succeed()
    requires !lookup(NameOf(root, e)).Missing?
    ensures Follows(DumpLine(d, root, e, io, lookup, unmounts), start, root, lines, front + [e], lookup, unmounts)
  {
    LineFollows(d, root, Swept(root, lines, front, lookup, unmounts), e, io, lookup, unmounts);
    SweptStep(root, lines, front, e, lookup, unmounts);
    MatchingStep(front, e, root);
    SelectionsStep(root, Matching(front, root), e, lookup, unmounts);
    PathsStep(root, Released(root, Matching(front, root), lookup, unmounts), e, start.mounts);
  }

  lemma SkipFollows(d: Dump, start: Server, root: string, lines: seq<string>, front: seq<string>, e: string,
                    lookup: string -> Lookup, unmounts: string -> bool)
    requires Follows(d, start, root, lines, front, lookup, unmounts) && !Managed(root, e)
    ensures Follows(d, start, root, lines, front + [e], lookup, unmounts)
  {
    SweptStep(root, lines, front, e, lookup, unmounts);
    MatchingStep(front, e, root);
  }

  lemma {:induction false} DumpFollows(start: Server, root: string, lines: seq<string>, done: seq<string>, io: nat -> LineIo,
                                       lookup: string -> Lookup, unmounts: string -> bool)
    requires TableHas(start.table, lines) && AllReadable(root, done) && FaultFree(io)
    requires forall l :: l in done && Managed(root, l) ==> !lookup(NameOf(root, l)).Missing?
    ensures Follows(DumpLines(Dump(start, true, 0, Going), root, Matching(done, root), io, lookup, unmounts),
                    start, root, lines, done, lookup, unmounts)
  {
    var first := Dump(start, true, 0, Going);
    if done == [] {
      assert PathsOf(root, []) == {};
    } else {
      var n := |done| - 1;
      var front, e := done[..n], done[n];
      assert done == front + [e];
      assert e in done;
      DumpFollows(start, root, lines, front, io, lookup, unmounts);
      var exports := Matching(front, root);
      var d := DumpLines(first, root, exports, io, lookup, unmounts);
      MatchingStep(front, e, root);
      if Managed(root, e) {
        StepFollows(d, start, root, lines, front, e, io(|exports|), lookup, unmounts);
        DumpLinesStep(first, root, exports, e, io, lookup, unmounts);
      } else {
        SkipFollows(d, start, root, lines, front, e, lookup, unmounts);
      }
    }
  }

  // --- Which lines are swept ---

  /** Line k does not sweep l away for good. */
  ghost predicate Spares(root: string, done: seq<string>, k: int, l: string, lookup: string -> Lookup, unmounts: string -> bool)
    requires 0 <= k < |done|
  {
    Sweeps(root, done[k], lookup) && done[k] != l && DirectoryOf(done[k]) <= l ==>
      l in done && ComesBack(root, l, lookup, unmounts) && l !in done[..k]
  }

  ghost predicate AllSpare(root: string, done: seq<string>, l: string, lookup: string -> Lookup, unmounts: string -> bool) {
    forall k :: 0 <= k < |done| ==> Spares(root, done, k, l, lookup, unmounts)
  }

  ghost predicate Stays(root: string, done: seq<string>, l: string, lookup: string -> Lookup, unmounts: string -> bool) {
    !(l in done && Goes(root, l, lookup, unmounts)) && AllSpare(root, done, l, lookup, unmounts)
  }

  /** No managed line is there twice. */
  ghost predicate ManagedOnce(root: string, lines: seq<string>) {
    forall i, j :: 0 <= i < j < |lines| && (Managed(root, lines[i]) || Managed(root, lines[j])) ==> lines[i] != lines[j]
  }

  lemma CountStep(front: seq<string>, e: string, l: string)
    ensures multiset(front + [e])[l] == multiset(front)[l] + if l == e then 1 else 0
  {
  }

  lemma {:induction false} WithoutCount(lines: seq<string>, prefix: string, l: string)
    ensures multiset(Without(lines, prefix))[l] == if prefix <= l then 0 else multiset(lines)[l]
  {
    if lines != [] {
      var n := |lines| - 1;
      var front, e := lines[..n], lines[n];
      assert lines == front + [e];
      WithoutCount(front, prefix, l);
      CountStep(front, e, l);
      CountStep(Without(front, prefix), e, l);
    }
  }

  lemma {:induction false} OnceCount(root: string, lines: seq<string>, l: string)
    requires ManagedOnce(root, lines) && l in lines && Managed(root, l)
    ensures multiset(lines)[l] == 1
  {
    var n := |lines| - 1;
    var front, e := lines[..n], lines[n];
    assert lines == front + [e];
    CountStep(front, e, l);
    if l in front {
      OnceCount(root, front, l);
    } else {
      assert multiset(front)[l] == 0;
    }
  }

  lemma SweptByOneCount(root: string, lines: seq<string>, e: string, l: string, lookup: string -> Lookup, unmounts: string -> bool)
    requires Readable(root, e)
    ensures multiset(SweptByOne(root, lines, e, lookup, unmounts))[l] ==
            if !Sweeps(root, e, lookup) then multiset(lines)[l]
            else if l == e then (if ComesBack(root, e, lookup, unmounts) then 1 else 0)
            else if DirectoryOf(e) <= l then 0 else multiset(lines)[l]
  {
    if Sweeps(root, e, lookup) {
      DirectoryIsPrefix(root, e);
      WithoutCount(lines, DirectoryOf(e), l);
      CountStep(Without(lines, DirectoryOf(e)), e, l);
    }
  }

  lemma SparesFront(root: string, front: seq<string>, e: string, k: nat, l: string,
                    lookup: string -> Lookup, unmounts: string -> bool)
    requires k < |front| && (Managed(root, e) ==> e !in front)
    ensures Spares(root, front + [e], k, l, lookup, unmounts) <==>
            Spares(root, front, k, l, lookup, unmounts) || (l == e && ComesBack(root, e, lookup, unmounts))
  {
    var done := front + [e];
    assert done[k] == front[k] && done[..k] == front[..k];
    assert l in done <==> l in front || l == e;
  }

  lemma SparesLast(root: string, front: seq<string>, e: string, l: string, lookup: string -> Lookup, unmounts: string -> bool)
    requires Managed(root, e) ==> e !in front
    ensures Spares(root, front + [e], |front|, l, lookup, unmounts) <==>
            !(Sweeps(root, e, lookup) && e != l && DirectoryOf(e) <= l)
  {
    var done := front + [e];
    assert done[|front|] == e && done[..|front|] == front;
    assert l in done <==> l in front || l == e;
  }

  lemma AllSpareStep(root: string, front: seq<string>, e: string, l: string, lookup: string -> Lookup, unmounts: string -> bool)
    requires Managed(root, e) ==> e !in front
    ensures AllSpare(root, front + [e], l, lookup, unmounts) <==>
            && !(Sweeps(root, e, lookup) && e != l && DirectoryOf(e) <= l)
            && (AllSpare(root, front, l, lookup, unmounts) || (l == e && ComesBack(root, e, lookup, unmounts)))
  {
    var done := front + [e];
    SparesLast(root, front, e, l, lookup, unmounts);
    forall k | 0 <= k < |front|
      ensures Spares(root, done, k, l, lookup, unmounts) <==>
              Spares(root, front, k, l, lookup, unmounts) || (l == e && ComesBack(root, e, lookup, unmounts))
    {
      SparesFront(root, front, e, k, l, lookup, unmounts);
    }
  }

  lemma StaysStep(root: string, front: seq<string>, e: string, l: string, lookup: string -> Lookup, unmounts: string -> bool)
    requires Managed(root, e) ==> e !in front
    ensures Stays(root, front + [e], l, lookup, unmounts) <==>
            if !Sweeps(root, e, lookup) then Stays(root, front, l, lookup, unmounts)
            else if l == e then ComesBack(root, e, lookup, unmounts)
            else Stays(root, front, l, lookup, unmounts) && !(DirectoryOf(e) <= l)
  {
    AllSpareStep(root, front, e, l, lookup, unmounts);
    assert l in front + [e] <==> l in front || l == e;
  }

  /** A line is there as often as at first, or not at all. */
  lemma {:induction false} SweptCount(root: string, lines: seq<string>, done: seq<string>, l: string,
                                      lookup: string -> Lookup, unmounts: string -> bool)
    requires AllReadable(root, done) && ManagedOnce(root, done) && ManagedOnce(root, lines)
    requires forall e :: e in done ==> e in lines
    ensures multiset(Swept(root, lines, done, lookup, unmounts))[l] ==
            if Stays(root, done, l, lookup, unmounts) then multiset(lines)[l] else 0
  {
    if done != [] {
      var n := |done| - 1;
      var front, e := done[..n], done[n];
      assert done == front + [e];
      assert e in done;
      SweptCount(root, lines, front, l, lookup, unmounts);
      SweptByOneCount(root, Swept(root, lines, front, lookup, unmounts), e, l, lookup, unmounts);
      StaysStep(root, front, e, l, lookup, unmounts);
      if Managed(root, e) {
        OnceCount(root, lines, e);
      }
    }
  }

  lemma {:induction false} ReleasedCount(root: string, lines: seq<string>, l: string, lookup: string -> Lookup, unmounts: string -> bool)
    ensures multiset(Released(root, Matching(lines, root), lookup, unmounts))[l] ==
            if Goes(root, l, lookup, unmounts) then multiset(lines)[l] else 0
  {
    if lines != [] {
      var n := |lines| - 1;
      var front, e := lines[..n], lines[n];
      assert lines == front + [e];
      ReleasedCount(root, front, l, lookup, unmounts);
      MatchingStep(front, e, root);
      SelectionsStep(root, Matching(front, root), e, lookup, unmounts);
      CountStep(front, e, l);
      CountStep(Released(root, Matching(front, root), lookup, unmounts), e, l);
    }
  }

  // --- When a dump conserves exports ---

  /** Whatever line a dropped one sweeps along is released as well, or comes later and is
      put back. */
  ghost predicate SweepsSafely(root: string, lines: seq<string>, lookup: string -> Lookup, unmounts: string -> bool) {
    forall i, j :: 0 <= i < |lines| && 0 <= j < |lines| && i != j
                   && Sweeps(root, lines[i], lookup) && DirectoryOf(lines[i]) <= lines[j] ==>
                     Goes(root, lines[j], lookup, unmounts) || (ComesBack(root, lines[j], lookup, unmounts) && i < j)
  }

  lemma SparesMeaning(root: string, lines: seq<string>, i: nat, j: nat, lookup: string -> Lookup, unmounts: string -> bool)
    requires ManagedOnce(root, lines) && i < |lines| && j < |lines|
    ensures Spares(root, lines, i, lines[j], lookup, unmounts) <==>
            (i != j && Sweeps(root, lines[i], lookup) && DirectoryOf(lines[i]) <= lines[j] ==>
               ComesBack(root, lines[j], lookup, unmounts) && i < j)
  {
    if Managed(root, lines[j]) {
      assert lines[j] !in lines[..i] <==> i <= j by {
        if j < i {
          assert lines[..i][j] == lines[j];
        }
      }
    }
  }

  lemma StayOrGoIff(root: string, lines: seq<string>, lookup: string -> Lookup, unmounts: string -> bool)
    requires ManagedOnce(root, lines)
    ensures SweepsSafely(root, lines, lookup, unmounts) <==>
            forall l :: l in lines ==> Stays(root, lines, l, lookup, unmounts) || Goes(root, l, lookup, unmounts)
  {
    forall i, j | 0 <= i < |lines| && 0 <= j < |lines|
      ensures Spares(root, lines, i, lines[j], lookup, unmounts) <==>
              (i != j && Sweeps(root, lines[i], lookup) && DirectoryOf(lines[i]) <= lines[j] ==>
                 ComesBack(root, lines[j], lookup, unmounts) && i < j)
    {
      SparesMeaning(root, lines, i, j, lookup, unmounts);
    }
  }

  /** Over every fault-free dump, each line is kept as often as it was there, or released,
      or lost; the mounts and the count are those of the released ones. */
  lemma LineIsKeptIff(start: Server, root: string, lines: seq<string>, l: string, io: nat -> LineIo,
                      lookup: string -> Lookup, unmounts: string -> bool)
    requires AllReadable(root, lines) && ManagedOnce(root, lines) && TableHas(start.table, lines)
    requires FaultFree(io) && forall l :: l in lines && Managed(root, l) ==> !lookup(NameOf(root, l)).Missing?
    ensures var d := Pinged(start, root, NoFault, io, lookup, unmounts);
            var released := Released(root, Matching(lines, root), lookup, unmounts);
            && multiset(ScanLines(d.server.table.text))[l] ==
               (if Stays(root, lines, l, lookup, unmounts) then multiset(lines)[l] else 0)
            && multiset(released)[l] == (if Goes(root, l, lookup, unmounts) then multiset(lines)[l] else 0)
            && d.server.mounts == start.mounts - PathsOf(root, released) && d.removed == |released|
            && (d.ready <==> PutBack(root, Matching(lines, root), lookup, unmounts) == []) && d.ending == Going
  {
    TableLines(start.table, lines);
    DumpFollows(start, root, lines, lines, io, lookup, unmounts);
    TableLines(Pinged(start, root, NoFault, io, lookup, unmounts).server.table, Swept(root, lines, lines, lookup, unmounts));
    SweptCount(root, lines, lines, l, lookup, unmounts);
    ReleasedCount(root, lines, l, lookup, unmounts);
  }

  lemma SumsUpIff(left: multiset<string>, released: multiset<string>, all: multiset<string>)
    ensures left + released == all <==> forall l :: left[l] + released[l] == all[l]
  {
  }

  /** A fault-free dump conserves exports, so that the final lines and the released ones are
      together the initial ones, exactly if it sweeps safely. No directory needs to be
      incomparable to another. */
  lemma DumpConservesIff(start: Server, root: string, lines: seq<string>, io: nat -> LineIo,
                         lookup: string -> Lookup, unmounts: string -> bool)
    requires AllReadable(root, lines) && ManagedOnce(root, lines) && TableHas(start.table, lines)
    requires FaultFree(io) && forall l :: l in lines && Managed(root, l) ==> !lookup(NameOf(root, l)).Missing?
    ensures var d := Pinged(start, root, NoFault, io, lookup, unmounts);
            var left := ScanLines(d.server.table.text);
            var released := Released(root, Matching(lines, root), lookup, unmounts);
            && (multiset(left) + multiset(released) == multiset(lines) <==> SweepsSafely(root, lines, lookup, unmounts))
            && ((forall l :: l in lines ==> (l in left <==> !Goes(root, l, lookup, unmounts))) <==>
                SweepsSafely(root, lines, lookup, unmounts))
  {
    var left := ScanLines(Pinged(start, root, NoFault, io, lookup, unmounts).server.table.text);
    var released := Released(root, Matching(lines, root), lookup, unmounts);
    forall l
      ensures multiset(left)[l] == if Stays(root, lines, l, lookup, unmounts) then multiset(lines)[l] else 0
      ensures multiset(released)[l] == if Goes(root, l, lookup, unmounts) then multiset(lines)[l] else 0
    {
      LineIsKeptIff(start, root, lines, l, io, lookup, unmounts);
    }
    StayOrGoIff(root, lines, lookup, unmounts);
    SumsUpIff(multiset(left), multiset(released), multiset(lines));
    ConservedIff(root, lines, left, released, lookup, unmounts);
  }

  lemma ConservedIff(root: string, lines: seq<string>, left: seq<string>, released: seq<string>,
                     lookup: string -> Lookup, unmounts: string -> bool)
    requires forall l :: multiset(left)[l] == if Stays(root, lines, l, lookup, unmounts) then multiset(lines)[l] else 0
    requires forall l :: multiset(released)[l] == if Goes(root, l, lookup, unmounts) then multiset(lines)[l] else 0
    ensures (forall l :: multiset(left)[l] + multiset(released)[l] == multiset(lines)[l]) <==>
            forall l :: l in lines ==> Stays(root, lines, l, lookup, unmounts) || Goes(root, l, lookup, unmounts)
    ensures (forall l :: l in lines ==> (l in left <==> !Goes(root, l, lookup, unmounts))) <==>
            forall l :: l in lines ==> Stays(root, lines, l, lookup, unmounts) || Goes(root, l, lookup, unmounts)
  {
    forall l
      ensures l in lines <==> multiset(lines)[l] > 0
      ensures l in left <==> multiset(left)[l] > 0
    {
      assert l in multiset(lines) <==> l in lines;
      assert l in multiset(left) <==> l in left;
    }
  }

  // --- Tables of Services ---

  lemma ServicesAreReadable(root: string, lines: seq<Line>)
    requires ServicesOnly(root, lines)
    ensures AllReadable(root, RenderAll(root, lines)) && ManagedOnce(root, RenderAll(root, lines))
    ensures forall i :: 0 <= i < |lines| ==>
              && (Managed(root, Render(root, lines[i])) <==> lines[i].Service?)
              && (lines[i].Service? ==> NameOf(root, Render(root, lines[i])) == lines[i].name)
  {
    var rendered := RenderAll(root, lines);
    RenderedAreClean(root, lines);
    forall i | 0 <= i < |lines| && lines[i].Service?
      ensures Readable(root, rendered[i]) && Managed(root, rendered[i]) && NameOf(root, rendered[i]) == lines[i].name
    {
      ServiceLineReads(root, lines, i);
    }
    forall i, j | 0 <= i < j < |lines| && (Managed(root, rendered[i]) || Managed(root, rendered[j]))
      ensures rendered[i] != rendered[j]
    {
      assert lines[i].Service? && lines[j].Service? ==> lines[i].name != lines[j].name;
    }
  }

  /** Whatever Service's name extends that of a dropped one, it is released as well, or comes
      later and is put back. */
  ghost predicate NamesSweepSafely(lines: seq<Line>, lookup: string -> Lookup, unmounts: string -> bool) {
    forall i, j :: 0 <= i < |lines| && 0 <= j < |lines| && i != j
                   && (IsGone(lines[i], lookup, unmounts) || IsStuck(lines[i], lookup, unmounts))
                   && Extends(lines[j], lines[i].name) ==>
                     IsGone(lines[j], lookup, unmounts) || (IsStuck(lines[j], lookup, unmounts) && i < j)
  }

  lemma ServiceSelections(root: string, lines: seq<Line>, lookup: string -> Lookup, unmounts: string -> bool)
    requires ServicesOnly(root, lines)
    ensures forall i :: 0 <= i < |lines| ==>
              var l := RenderAll(root, lines)[i];
              && (Goes(root, l, lookup, unmounts) <==> IsGone(lines[i], lookup, unmounts))
              && (ComesBack(root, l, lookup, unmounts) <==> IsStuck(lines[i], lookup, unmounts))
              && (Sweeps(root, l, lookup) <==> IsGone(lines[i], lookup, unmounts) || IsStuck(lines[i], lookup, unmounts))
    ensures NoneMissing(lines, lookup) ==>
              forall l :: l in RenderAll(root, lines) && Managed(root, l) ==> !lookup(NameOf(root, l)).Missing?
  {
    var rendered := RenderAll(root, lines);
    ServicesAreReadable(root, lines);
    forall i | 0 <= i < |lines|
      ensures Goes(root, rendered[i], lookup, unmounts) <==> IsGone(lines[i], lookup, unmounts)
      ensures ComesBack(root, rendered[i], lookup, unmounts) <==> IsStuck(lines[i], lookup, unmounts)
      ensures Sweeps(root, rendered[i], lookup) <==>
              IsGone(lines[i], lookup, unmounts) || IsStuck(lines[i], lookup, unmounts)
      ensures NoneMissing(lines, lookup) && Managed(root, rendered[i]) ==> !lookup(NameOf(root, rendered[i])).Missing?
    {
      RenderedSelections(root, lines[i], lookup, unmounts);
    }
  }

  lemma NamesSweepSafelyIff(root: string, lines: seq<Line>, lookup: string -> Lookup, unmounts: string -> bool)
    requires ServicesOnly(root, lines)
    ensures NamesSweepSafely(lines, lookup, unmounts) <==> SweepsSafely(root, RenderAll(root, lines), lookup, unmounts)
  {
    var rendered := RenderAll(root, lines);
    ServiceSelections(root, lines, lookup, unmounts);
    forall i, j | 0 <= i < |lines| && 0 <= j < |lines| && lines[i].Service?
      ensures DirectoryOf(rendered[i]) <= rendered[j] <==> Extends(lines[j], lines[i].name)
    {
      ServiceLineReads(root, lines, i);
    }
  }

  lemma ByIndex(root: string, lines: seq<Line>, left: seq<string>, lookup: string -> Lookup, unmounts: string -> bool)
    requires ServicesOnly(root, lines)
    ensures (forall l :: l in RenderAll(root, lines) ==> (l in left <==> !Goes(root, l, lookup, unmounts))) <==>
            forall i :: 0 <= i < |lines| ==> (Render(root, lines[i]) in left <==> !IsGone(lines[i], lookup, unmounts))
  {
    var rendered := RenderAll(root, lines);
    ServiceSelections(root, lines, lookup, unmounts);
    forall i | 0 <= i < |lines|
      ensures Render(root, lines[i]) in rendered
      ensures Goes(root, Render(root, lines[i]), lookup, unmounts) <==> IsGone(lines[i], lookup, unmounts)
    {
      assert rendered[i] == Render(root, lines[i]);
    }
  }

  /** For tables of Services, with any names: a fault-free dump removes exactly the Services
      that were found and unmounted exactly if the names sweep safely. */
  lemma ServiceDumpIff(start: Server, root: string, lines: seq<Line>, io: nat -> LineIo,
                       lookup: string -> Lookup, unmounts: string -> bool)
    requires ServicesOnly(root, lines) && NoneMissing(lines, lookup)
    requires start.table.text == FileText(root, lines) && start.table.synced <= start.table.generation
    requires FaultFree(io)
    ensures var left := ScanLines(Pinged(start, root, NoFault, io, lookup, unmounts).server.table.text);
            (forall i :: 0 <= i < |lines| ==> (Render(root, lines[i]) in left <==> !IsGone(lines[i], lookup, unmounts)))
            <==> NamesSweepSafely(lines, lookup, unmounts)
  {
    ServicesAreReadable(root, lines);
    RenderedLines(root, lines);
    ServiceSelections(root, lines, lookup, unmounts);
    NamesSweepSafelyIff(root, lines, lookup, unmounts);
    DumpConservesIff(start, root, RenderAll(root, lines), io, lookup, unmounts);
    ByIndex(root, lines, ScanLines(Pinged(start, root, NoFault, io, lookup, unmounts).server.table.text), lookup, unmounts);
  }

  predicate IsSwept(lines: seq<Line>, lookup: string -> Lookup, unmounts: string -> bool) {
    && |lines| == 2 && IsGone(lines[0], lookup, unmounts)
    && Extends(lines[1], lines[0].name) && lookup(lines[1].name).Unresolved?
  }

  /** The same of two lines as such. */
  ghost predicate OneSweepsOther(root: string, a: string, b: string, lookup: string -> Lookup, unmounts: string -> bool) {
    && a != b && DirectoryOf(a) <= b
    && Goes(root, a, lookup, unmounts) && Managed(root, b) && lookup(NameOf(root, b)).Unresolved?
  }

  lemma TwoOf<T>(s: seq<T>)
    requires |s| == 2
    ensures s == [s[0], s[1]]
  {
  }

  lemma SweptLines(root: string, lines: seq<Line>, a: string, b: string, lookup: string -> Lookup, unmounts: string -> bool)
    requires ServicesOnly(root, lines) && IsSwept(lines, lookup, unmounts)
    requires a == Render(root, lines[0]) && b == Render(root, lines[1])
    ensures OneSweepsOther(root, a, b, lookup, unmounts)
    ensures NameOf(root, a) == lines[0].name != lines[1].name == NameOf(root, b)
    ensures Readable(root, a) && Readable(root, b)
  {
    assert lines[0].name != lines[1].name;
    ServicesAreReadable(root, lines);
    assert RenderAll(root, lines)[0] == a && RenderAll(root, lines)[1] == b;
    assert DirectoryOf(a) <= b by {
      ServiceLineReads(root, lines, 0);
    }
    RenderedSelections(root, lines[0], lookup, unmounts);
  }

  lemma NeitherStays(root: string, a: string, b: string, lookup: string -> Lookup, unmounts: string -> bool)
    requires OneSweepsOther(root, a, b, lookup, unmounts)
    ensures !Stays(root, [a, b], a, lookup, unmounts) && !Stays(root, [a, b], b, lookup, unmounts)
  {
    assert !Spares(root, [a, b], 0, b, lookup, unmounts);
  }

  lemma OnlyFirstGoes(root: string, a: string, b: string, lookup: string -> Lookup, unmounts: string -> bool)
    requires OneSweepsOther(root, a, b, lookup, unmounts)
    ensures PutBack(root, Matching([a, b], root), lookup, unmounts) == []
    ensures Released(root, Matching([a, b], root), lookup, unmounts) == [a]
  {
    assert [] + [a] == [a] && [a] + [b] == [a, b];
    MatchingStep([], a, root);
    MatchingStep([a], b, root);
    SelectionsStep(root, [], a, lookup, unmounts);
    SelectionsStep(root, [a], b, lookup, unmounts);
  }

  lemma NothingLeftIn(start: Server, root: string, lines: seq<string>, io: nat -> LineIo,
                      lookup: string -> Lookup, unmounts: string -> bool)
    requires AllReadable(root, lines) && ManagedOnce(root, lines) && TableHas(start.table, lines)
    requires FaultFree(io) && forall l :: l in lines && Managed(root, l) ==> !lookup(NameOf(root, l)).Missing?
    requires forall l :: l in lines ==> !Stays(root, lines, l, lookup, unmounts)
    ensures var d := Pinged(start, root, NoFault, io, lookup, unmounts);
            && ScanLines(d.server.table.text) == [] && d.ending == Going
            && (d.ready <==> PutBack(root, Matching(lines, root), lookup, unmounts) == [])
            && d.server.mounts == start.mounts - PathsOf(root, Released(root, Matching(lines, root), lookup, unmounts))
  {
    var left := ScanLines(Pinged(start, root, NoFault, io, lookup, unmounts).server.table.text);
    var l := if left == [] then "" else left[0];
    LineIsKeptIff(start, root, lines, l, io, lookup, unmounts);
    assert left != [] ==> l in multiset(left);
    assert l in multiset(lines) ==> l in lines;
  }

  lemma PairIsReadable(root: string, a: string, b: string)
    requires a != b && Readable(root, a) && Readable(root, b)
    ensures AllReadable(root, [a, b]) && ManagedOnce(root, [a, b])
  {
  }

  lemma SweptAway(start: Server, root: string, a: string, b: string, path: string, io: nat -> LineIo,
                  lookup: string -> Lookup, unmounts: string -> bool)
    requires OneSweepsOther(root, a, b, lookup, unmounts) && Readable(root, a) && Readable(root, b)
    requires TableHas(start.table, [a, b]) && FaultFree(io)
    requires path in start.mounts && path != ServicePath(root, NameOf(root, a))
    ensures var d := Pinged(start, root, NoFault, io, lookup, unmounts);
            ScanLines(d.server.table.text) == [] && d.ready && d.ending == Going && path in d.server.mounts
  {
    PairIsReadable(root, a, b);
    NeitherStays(root, a, b, lookup, unmounts);
    OnlyFirstGoes(root, a, b, lookup, unmounts);
    assert forall l :: l in [a, b] ==> l == a || l == b;
    NothingLeftIn(start, root, [a, b], io, lookup, unmounts);
    OnePath(root, a);
  }

  lemma OnePath(root: string, line: string)
    ensures PathsOf(root, [line]) == {ServicePath(root, NameOf(root, line))}
  {
  }

  /** Two lines, a dropped Service and one whose name extends its name and that was not
      found: the whole dump leaves no line at all, and the second volume mounted. */
  lemma DumpTakesExtensionsAlong(start: Server, root: string, lines: seq<Line>,
                                 io: nat -> LineIo, lookup: string -> Lookup, unmounts: string -> bool)
    requires ServicesOnly(root, lines) && IsSwept(lines, lookup, unmounts)
    requires start.table.text == FileText(root, lines) && start.table.synced <= start.table.generation
    requires FaultFree(io) && ServicePath(root, lines[1].name) in start.mounts
    ensures var d := Pinged(start, root, NoFault, io, lookup, unmounts);
            && ScanLines(d.server.table.text) == [] && d.ready && d.ending == Going
            && ServicePath(root, lines[1].name) in d.server.mounts
  {
    var rendered := RenderAll(root, lines);
    var path := ServicePath(root, lines[1].name);
    TwoOf(rendered);
    SweptLines(root, lines, rendered[0], rendered[1], lookup, unmounts);
    assert TableHas(start.table, rendered) by { RenderedLines(root, lines); }
    assert path != ServicePath(root, lines[0].name) by { PathsDiffer(root, lines[0].name, lines[1].name); }
    SweptAway(start, root, rendered[0], rendered[1], path, io, lookup, unmounts);
  }

  /** Such a table: volume "nfs-10" is lost with volume "nfs-1". */
  lemma SweptTable(root: string, options: string)
    requires Paths.CleanRoot(root) && GoodOptions(options)
    ensures var lines := [Service("nfs-1", options), Service("nfs-10", options)];
            && ServicesOnly(root, lines)
            && IsSwept(lines, name => if name == "nfs-1" then Resolved else Unresolved, _ => true)
  {
    PlainDigits("nfs-1");
    PlainDigits("nfs-10");
    assert "nfs-1" <= "nfs-10";
  }

  lemma PlainDigits(name: string)
    requires |name| > 4 && forall c :: c in name ==> c in "nfs-10"
    ensures Paths.PlainName(name)
  {
    forall c | c in name ensures c != '/' && !IsSpace(c) {
    }
  }
}

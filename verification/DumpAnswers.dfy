/** The dump from the answers that it gets: of the cluster about the Service of each export,
    and of the array driver about each unmount. */
module DumpAnswers {
  import opened Wrappers
  import opened Text
  import opened ExportsText
  import opened ExportTable
  import opened ServiceTable
  import opened NfsServer
  import opened DumpLaws
  import opened DumpSweeps

  /** One of three attempts finds the Service, with the annotation, after others that failed
      otherwise than with not found. */
  ghost predicate FindsVolume(answer: nat -> Answer) {
    exists k: nat :: k < 3 && answer(k).Found? && answer(k).annotation.Some? && OthersFail(answer, k)
  }

  ghost predicate OthersFail(answer: nat -> Answer, k: nat) {
    forall j: nat :: j < k ==> answer(j).OtherError?
  }

  /** Each of three attempts fails, and not because there is no such Service. */
  ghost predicate FindsNothing(answer: nat -> Answer) {
    forall k: nat :: k < 3 ==> answer(k).OtherError?
  }

  /** One of ten unmount calls succeeds. */
  ghost predicate IsUnmounted(driver: nat -> bool) {
    exists k: nat :: k < 10 && driver(k)
  }

  lemma {:induction false} FirstAnswer(answer: nat -> Answer, k: nat, from: nat)
    requires from <= k < 3 && OthersFail(answer, k) && !answer(k).OtherError?
    ensures ContentOf(answer, from) == if answer(k).NotFound? then Error else Loaded(answer(k).annotation)
    decreases k - from
  {
    if from < k {
      FirstAnswer(answer, k, from + 1);
    }
  }

  /** What a lookup comes to, from its answers. */
  lemma LookupMeaning(answers: string -> (nat -> Answer), name: string)
    ensures Lookups(answers)(name).Resolved? <==> FindsVolume(answers(name))
    ensures Lookups(answers)(name).Missing? <==> FindsNothing(answers(name))
  {
    var answer := answers(name);
    NothingIff(answer, 0);
    if !FindsNothing(answer) {
      var k: nat :| k < 3 && !answer(k).OtherError?;
      var first := if !answer(0).OtherError? then 0 else if !answer(1).OtherError? then 1 else 2;
      assert OthersFail(answer, first) && !answer(first).OtherError?;
      FirstAnswer(answer, first, 0);
      forall i: nat | i < 3 && answer(i).Found? && answer(i).annotation.Some? && OthersFail(answer, i) ensures i == first {
      }
    }
  }

  lemma UnmountMeaning(drivers: string -> (nat -> bool), name: string)
    ensures Unmounts(drivers)(name) <==> IsUnmounted(drivers(name))
  {
  }

  /** What the dump makes of one managed line: from the answers for the line's name. */
  ghost predicate IsFound(root: string, line: string, answers: string -> (nat -> Answer)) {
    Managed(root, line) && FindsVolume(answers(NameOf(root, line)))
  }

  ghost predicate IsDone(root: string, line: string, answers: string -> (nat -> Answer), drivers: string -> (nat -> bool)) {
    IsFound(root, line, answers) && IsUnmounted(drivers(NameOf(root, line)))
  }

  lemma LineMeaning(root: string, line: string, answers: string -> (nat -> Answer), drivers: string -> (nat -> bool))
    ensures Sweeps(root, line, Lookups(answers)) <==> IsFound(root, line, answers)
    ensures Goes(root, line, Lookups(answers), Unmounts(drivers)) <==> IsDone(root, line, answers, drivers)
    ensures ComesBack(root, line, Lookups(answers), Unmounts(drivers)) <==>
            IsFound(root, line, answers) && !IsDone(root, line, answers, drivers)
    ensures Lookups(answers)(NameOf(root, line)).Missing? <==> FindsNothing(answers(NameOf(root, line)))
  {
    LookupMeaning(answers, NameOf(root, line));
    UnmountMeaning(drivers, NameOf(root, line));
  }

  ghost predicate NoneFindsNothing(root: string, lines: seq<string>, answers: string -> (nat -> Answer)) {
    forall l :: l in lines && Managed(root, l) ==> !FindsNothing(answers(NameOf(root, l)))
  }

  lemma NoneMissingIn(root: string, lines: seq<string>, answers: string -> (nat -> Answer))
    requires NoneFindsNothing(root, lines, answers)
    ensures forall l :: l in lines && Managed(root, l) ==> !Lookups(answers)(NameOf(root, l)).Missing?
  {
    forall l | l in lines && Managed(root, l) ensures !Lookups(answers)(NameOf(root, l)).Missing? {
      LookupMeaning(answers, NameOf(root, l));
    }
  }

  // --- One line ---

  /** With no faults, a line is deleted by its own turn exactly if its volume is found, and
      its volume is then unmounted, or the line is added again. */
  lemma TurnMeaning(d: Dump, root: string, lines: seq<string>, e: string, io: LineIo,
                    answers: string -> (nat -> Answer), drivers: string -> (nat -> bool))
    requires TableHas(d.server.table, lines) && d.ending == Going && Readable(root, e) && Managed(root, e) && e in lines
    requires io.delete.NoFault? && io.add.NoFault? && io.first.Succeed() && io.second.Succeed()
    requires !FindsNothing(answers(NameOf(root, e)))
    ensures var after := DumpLine(d, root, e, io, Lookups(answers), Unmounts(drivers));
            && (e in ScanLines(after.server.table.text) <==> !IsDone(root, e, answers, drivers))
            && (after.removed == d.removed + if IsDone(root, e, answers, drivers) then 1 else 0)
            && after.server.mounts ==
               (if IsDone(root, e, answers, drivers) then d.server.mounts - {ServicePath(root, NameOf(root, e))} else d.server.mounts)
            && (!IsFound(root, e, answers) ==> after == d)
  {
    var lookup, unmounts := Lookups(answers), Unmounts(drivers);
    LineMeaning(root, e, answers, drivers);
    LineFollows(d, root, lines, e, io, lookup, unmounts);
    TableLines(DumpLine(d, root, e, io, lookup, unmounts).server.table, SweptByOne(root, lines, e, lookup, unmounts));
    SweptByOneCount(root, lines, e, e, lookup, unmounts);
    InMultiset(SweptByOne(root, lines, e, lookup, unmounts), e);
    InMultiset(lines, e);
  }

  lemma InMultiset(lines: seq<string>, l: string)
    ensures l in lines <==> multiset(lines)[l] > 0
  {
    assert l in multiset(lines) <==> l in lines;
  }

  // --- Whole dumps ---

  /** Of tables in which no directory extends another, a fault-free dump removes exactly the
      lines whose volumes were found and unmounted, and is ready exactly if each volume
      that was found was unmounted. */
  lemma DumpByAnswers(start: Server, root: string, lines: seq<string>, io: nat -> LineIo,
                      answers: string -> (nat -> Answer), drivers: string -> (nat -> bool))
    requires Tidy(root, lines) && TableHas(start.table, lines) && FaultFree(io)
    requires NoneFindsNothing(root, lines, answers)
    ensures var d := Pinged(start, root, NoFault, io, Lookups(answers), Unmounts(drivers));
            var left := ScanLines(d.server.table.text);
            && (forall l :: l in lines ==> (l in left <==> !IsDone(root, l, answers, drivers)))
            && |left| + d.removed == |lines|
            && (d.ready <==> forall l :: l in lines && IsFound(root, l, answers) ==> IsDone(root, l, answers, drivers))
  {
    NoneMissingIn(root, lines, answers);
    DumpByLine(start, root, lines, io, Lookups(answers), Unmounts(drivers));
    forall l
      ensures Sweeps(root, l, Lookups(answers)) <==> IsFound(root, l, answers)
      ensures Goes(root, l, Lookups(answers), Unmounts(drivers)) <==> IsDone(root, l, answers, drivers)
    {
      LineMeaning(root, l, answers, drivers);
    }
    ByGoes(root, lines, Lookups(answers), Unmounts(drivers));
  }

  lemma ByGoes(root: string, lines: seq<string>, lookup: string -> Lookup, unmounts: string -> bool)
    ensures forall l :: l in lines ==> (Goes(root, l, lookup, unmounts) <==> Managed(root, l) && IsReleased(root, l, lookup, unmounts))
    ensures (forall l :: l in lines && Sweeps(root, l, lookup) ==> Goes(root, l, lookup, unmounts)) <==>
            forall l :: l in lines && Managed(root, l) && IsDropped(root, l, lookup) ==> unmounts(NameOf(root, l))
  {
  }

  /** Whatever line one that was found sweeps along is done with as well, or was found, comes
      later and is added again. */
  ghost predicate AnswersSweepSafely(root: string, lines: seq<string>, answers: string -> (nat -> Answer),
                                     drivers: string -> (nat -> bool))
  {
    forall i, j :: 0 <= i < |lines| && 0 <= j < |lines| && i != j
                   && IsFound(root, lines[i], answers) && DirectoryOf(lines[i]) <= lines[j] ==>
                     IsDone(root, lines[j], answers, drivers) || (IsFound(root, lines[j], answers) && i < j)
  }

  /** Of any tables: a fault-free dump removes exactly the lines whose volumes were found and
      unmounted, exactly if it sweeps safely. */
  lemma DumpByAnswersIff(start: Server, root: string, lines: seq<string>, io: nat -> LineIo,
                         answers: string -> (nat -> Answer), drivers: string -> (nat -> bool))
    requires AllReadable(root, lines) && ManagedOnce(root, lines) && TableHas(start.table, lines) && FaultFree(io)
    requires NoneFindsNothing(root, lines, answers)
    ensures var left := ScanLines(Pinged(start, root, NoFault, io, Lookups(answers), Unmounts(drivers)).server.table.text);
            (forall l :: l in lines ==> (l in left <==> !IsDone(root, l, answers, drivers))) <==>
            AnswersSweepSafely(root, lines, answers, drivers)
  {
    NoneMissingIn(root, lines, answers);
    DumpConservesIff(start, root, lines, io, Lookups(answers), Unmounts(drivers));
    forall l
      ensures Sweeps(root, l, Lookups(answers)) <==> IsFound(root, l, answers)
      ensures Goes(root, l, Lookups(answers), Unmounts(drivers)) <==> IsDone(root, l, answers, drivers)
      ensures ComesBack(root, l, Lookups(answers), Unmounts(drivers)) <==>
              IsFound(root, l, answers) && !IsDone(root, l, answers, drivers)
    {
      LineMeaning(root, l, answers, drivers);
    }
    SafelyIff(root, lines, answers, drivers);
  }

  lemma SafelyIff(root: string, lines: seq<string>, answers: string -> (nat -> Answer), drivers: string -> (nat -> bool))
    ensures SweepsSafely(root, lines, Lookups(answers), Unmounts(drivers)) <==> AnswersSweepSafely(root, lines, answers, drivers)
  {
    forall i | 0 <= i < |lines|
      ensures Sweeps(root, lines[i], Lookups(answers)) <==> IsFound(root, lines[i], answers)
      ensures Goes(root, lines[i], Lookups(answers), Unmounts(drivers)) <==> IsDone(root, lines[i], answers, drivers)
      ensures ComesBack(root, lines[i], Lookups(answers), Unmounts(drivers)) <==>
              IsFound(root, lines[i], answers) && !IsDone(root, lines[i], answers, drivers)
    {
      LineMeaning(root, lines[i], answers, drivers);
    }
  }

  // --- Faults of a dump ---

  /** A dump comes to its end exactly if the file could be read and each line let it go on;
      if it could not be read, nothing is changed, and the reply says ready, with an error. */
  lemma DumpCompletesIff(start: Server, root: string, read: Fault, io: nat -> LineIo,
                         lookup: string -> Lookup, unmounts: string -> bool)
    requires start.table.synced <= start.table.generation && forall k :: !io(k).delete.WriteFails?
    ensures var d := Pinged(start, root, read, io, lookup, unmounts);
            && (d.ending.Going? <==>
                !read.OpenFails? && GoesOn(root, Matching(ScanLines(start.table.text), root), io, lookup))
            && (read.OpenFails? ==> d == Dump(start, true, 0, Aborted))
  {
    if !read.OpenFails? {
      DumpEnding(Dump(start, true, 0, Going), root, Matching(ScanLines(start.table.text), root), io, lookup, unmounts);
    }
  }

  /** A line whose deletion fails is passed over, neither counted nor unmounted. */
  lemma FailedDeleteIsSkipped(d: Dump, root: string, line: string, io: LineIo, lookup: string -> Lookup, unmounts: string -> bool)
    requires d.ending.Going? && IsDropped(root, line, lookup)
    requires !Deleted(d.server.table, DirectoryOf(line), io.delete).1.ok
    ensures var after := DumpLine(d, root, line, io, lookup, unmounts);
            && after == d.(server := after.server) && after.server.mounts == d.server.mounts
            && after.server.table == d.server.table.(text := after.server.table.text)
            && (io.delete.OpenFails? ==> after == d)
  {
    DeleteAcceptedIff(d.server.table, DirectoryOf(line), io.delete);
  }

  /** A line that cannot be added again is lost: its volume is still mounted, the node not
      ready, and the dump goes on. */
  lemma FailedPutBackLosesLine(d: Dump, root: string, line: string, io: LineIo, lookup: string -> Lookup, unmounts: string -> bool)
    requires d.ending.Going? && IsPutBack(root, line, lookup, unmounts)
    requires d.server.table.synced <= d.server.table.generation
    requires io.delete.NoFault? && io.first.Succeed() && !io.add.NoFault?
    ensures var after := DumpLine(d, root, line, io, lookup, unmounts);
            && after.ending == Going && !after.ready && after.removed == d.removed
            && after.server.mounts == d.server.mounts
            && !Listed(after.server.table.text, DirectoryOf(line))
            && after.server.table.kernel == after.server.table.text
  {
    DeletedLines(d.server.table.text, DirectoryOf(line));
  }
}

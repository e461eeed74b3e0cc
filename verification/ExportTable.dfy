/** The exports file, its generation counters and the kernel's copy of it
    (nfs/exports.go). Every operation runs under one lock, so each is one atomic step. */
module ExportTable {
  import opened Wrappers
  import opened Text
  import opened ExportsText

  /** `kernel` is the text that the last successful `exportfs -r` loaded. */
  datatype Table = Table(text: string, generation: int, synced: int, saved: int, kernel: string)

  /** The two results of an edit: a generation, returned also with an error. */
  datatype Reply = Reply(generation: int, ok: bool)

  /** Opening, reading or reopening the file fails, or a write does. An edit writes line by
      line; `WriteFails(n)` lets n lines through. */
  datatype Fault = NoFault | OpenFails | WriteFails(after: nat)

  /** Whether `exportfs -r` succeeds, at the first attempt and at the second. */
  datatype Attempts = Attempts(first: bool, second: bool) {
    predicate Succeed() {
      first || second
    }
  }

  // --- What each operation does to the table ---

  ghost function Added(t: Table, directory: string, options: string, fault: Fault): (Table, Reply) {
    if fault.NoFault? && !Listed(t.text, directory) then
      (t.(text := AddText(t.text, directory, options), generation := t.generation + 1),
       Reply(t.generation + 1, true))
    else
      (t, Reply(t.generation, false))
  }

  ghost function Deleted(t: Table, directory: string, fault: Fault): (Table, Reply) {
    var kept := Without(TrimmedLines(t.text), directory);
    if fault.OpenFails? then
      (t, Reply(t.generation, false))
    else if fault.WriteFails? && fault.after < |kept| then
      (t.(text := Unlines(kept[..fault.after])), Reply(t.generation, false))
    else
      (t.(text := Unlines(kept), generation := t.generation + 1), Reply(t.generation + 1, true))
  }

  /** A resync is skipped when a generation at least as new was loaded. */
  ghost predicate Skips(t: Table, generation: int) {
    t.synced >= generation
  }

  ghost function Resynced(t: Table, generation: int, attempts: Attempts): (Table, bool) {
    if Skips(t, generation) then (t.(saved := t.saved + 1), true)
    else if attempts.Succeed() then (t.(synced := generation, kernel := t.text), true)
    else (t, false)
  }

  // --- What a caller is told, and what that means ---

  ghost predicate HasEntry(text: string, directory: string) {
    exists i :: 0 <= i < |TrimmedLines(text)| && directory <= TrimmedLines(text)[i]
  }

  /** An entry is added exactly if nothing failed and no line has the directory as a prefix;
      then it is at the end of the file, and counted. Otherwise nothing has changed. */
  lemma AddAcceptedIff(t: Table, directory: string, options: string, fault: Fault)
    ensures var (after, r) := Added(t, directory, options, fault);
            && (r.ok <==> fault.NoFault? && !HasEntry(t.text, directory))
            && (r.ok ==> after == Table(t.text + (directory + " " + options + "\n"), t.generation + 1, t.synced, t.saved, t.kernel))
            && (!r.ok ==> after == t)
            && r.generation == after.generation
  {
    assert Listed(t.text, directory) <==> HasEntry(t.text, directory);
  }

  /** A deletion is done exactly if the file could be opened and each line written that it
      keeps. If not, the file is unchanged, or holds the lines that were written. */
  lemma DeleteAcceptedIff(t: Table, directory: string, fault: Fault)
    ensures var (after, r) := Deleted(t, directory, fault);
            var kept := |TrimmedLines(DeleteText(t.text, directory))|;
            && (r.ok <==> fault.NoFault? || (fault.WriteFails? && fault.after >= kept))
            && (r.ok ==> after == Table(DeleteText(t.text, directory), t.generation + 1, t.synced, t.saved, t.kernel))
            && (!r.ok ==> after == t.(text := after.text))
            && (fault.OpenFails? ==> after == t)
            && (!r.ok && fault.WriteFails? ==>
                  TrimmedLines(after.text) == TrimmedLines(DeleteText(t.text, directory))[..fault.after])
            && r.generation == after.generation
  {
    var kept := Without(TrimmedLines(t.text), directory);
    DeletedLines(t.text, directory);
    if fault.WriteFails? && fault.after < |kept| {
      TrimmedLinesFacts(t.text);
      WithoutFacts(TrimmedLines(t.text), directory);
      forall l | l in kept[..fault.after] ensures CleanLine(l) {
        assert l in kept;
      }
      ReadBack(kept[..fault.after]);
    }
  }

  /** A resync that is not skipped succeeds exactly if one of its two attempts does; then
      the kernel has the file and the generation is synced. Otherwise nothing has changed. */
  lemma ResyncAcceptedIff(t: Table, generation: int, attempts: Attempts)
    ensures var (after, ok) := Resynced(t, generation, attempts);
            && (t.synced >= generation ==> ok && after == t.(saved := t.saved + 1))
            && (t.synced < generation ==>
                  && (ok <==> attempts.first || attempts.second)
                  && (ok ==> after == t.(synced := generation, kernel := t.text))
                  && (!ok ==> after == t))
  {
  }

  // --- One turn of each loop ---

  lemma MatchingNext(lines: seq<string>, i: nat, prefix: string)
    requires i < |lines|
    ensures Matching(lines[..i + 1], prefix) == Matching(lines[..i], prefix) + if prefix <= lines[i] then [lines[i]] else []
  {
    assert lines[..i + 1][..i] == lines[..i];
  }

  lemma WithoutNext(lines: seq<string>, i: nat, prefix: string)
    requires i < |lines|
    ensures Without(lines[..i + 1], prefix) == Without(lines[..i], prefix) + if prefix <= lines[i] then [] else [lines[i]]
  {
    assert lines[..i + 1][..i] == lines[..i];
  }

  lemma UnlinesNext(lines: seq<string>, i: nat)
    requires i < |lines|
    ensures Unlines(lines[..i + 1]) == Unlines(lines[..i]) + (lines[i] + "\n")
  {
    assert lines[..i + 1] == lines[..i] + [lines[i]];
    UnlinesAppend(lines[..i], [lines[i]]);
    assert Unlines([lines[i]]) == lines[i] + "\n";
  }

  class ExportsFile {
    var text: string
    var generation: int
    var syncedGeneration: int
    var savedUpdates: int
    var kernel: string

    ghost function View(): Table
      reads this
    {
      Table(text, generation, syncedGeneration, savedUpdates, kernel)
    }

    constructor (text: string)
      ensures View() == Table(text, 0, 0, 0, text)
    {
      this.text, this.kernel := text, text;
      generation, syncedGeneration, savedUpdates := 0, 0, 0;
    }

    method CheckExport(directory: string, fault: Fault) returns (found: bool, ok: bool)
      ensures ok == !fault.OpenFails?
      ensures found <==> ok && Listed(text, directory)
    {
      if fault.OpenFails? {
        return false, false;
      }
      var scanned := ScanLines(text);
      var i := 0;
      while i < |scanned|
        invariant 0 <= i <= |scanned|
        invariant forall j :: 0 <= j < i ==> !(directory <= TrimmedLines(text)[j])
      {
        var line := TrimSpace(scanned[i]);
        if directory <= line {
          assert directory <= TrimmedLines(text)[i];
          return true, true;
        }
        i := i + 1;
      }
      return false, true;
    }

    /** None stands for the error results: the file could not be read, or lists no such entry. */
    method GetExport(directory: string, fault: Fault) returns (entry: Option<string>)
      ensures entry == if fault.OpenFails? then None else FirstMatch(TrimmedLines(text), directory)
    {
      if fault.OpenFails? {
        return None;
      }
      var scanned := ScanLines(text);
      var i := 0;
      while i < |scanned|
        invariant 0 <= i <= |scanned|
        invariant FirstMatch(TrimmedLines(text), directory) == FirstMatch(TrimmedLines(text)[i..], directory)
      {
        var line := TrimSpace(scanned[i]);
        assert TrimmedLines(text)[i..][1..] == TrimmedLines(text)[i + 1..];
        if directory <= line {
          return Some(line);
        }
        i := i + 1;
      }
      return None;
    }

    method GetExports(prefix: string, fault: Fault) returns (matches: Option<seq<string>>)
      ensures matches == if fault.OpenFails? then None else Some(Matching(ScanLines(text), prefix))
    {
      if fault.OpenFails? {
        return None;
      }
      var scanned := ScanLines(text);
      var found: seq<string> := [];
      var i := 0;
      while i < |scanned|
        invariant 0 <= i <= |scanned|
        invariant found == Matching(scanned[..i], prefix)
      {
        var line := scanned[i];
        MatchingNext(scanned, i, prefix);
        if prefix <= line {
          found := found + [line];
        }
        i := i + 1;
      }
      assert scanned[..i] == scanned;
      return Some(found);
    }

    method AddExport(directory: string, options: string, fault: Fault) returns (r: Reply)
      modifies this
      ensures (View(), r) == Added(old(View()), directory, options, fault)
    {
      var exists_, ok := CheckExport(directory, fault);
      if !ok || exists_ {
        return Reply(generation, false);
      }
      if fault.WriteFails? {
        return Reply(generation, false);
      }
      text := text + (directory + " " + options + "\n");
      generation := generation + 1;
      return Reply(generation, true);
    }

    /** The trimmed lines that a deletion keeps. */
    method LinesWithout(directory: string) returns (lines: seq<string>)
      ensures lines == Without(TrimmedLines(text), directory)
    {
      var scanned := ScanLines(text);
      lines := [];
      var i := 0;
      while i < |scanned|
        invariant 0 <= i <= |scanned|
        invariant lines == Without(TrimmedLines(text)[..i], directory)
      {
        var line := TrimSpace(scanned[i]);
        WithoutNext(TrimmedLines(text), i, directory);
        if !(directory <= line) {
          lines := lines + [line];
        }
        i := i + 1;
      }
      assert TrimmedLines(text)[..i] == TrimmedLines(text);
    }

    /** Writes the lines to the file, that was truncated; stops at a write that fails. */
    method WriteLines(lines: seq<string>, fault: Fault) returns (ok: bool)
      modifies this`text
      ensures ok <==> !(fault.WriteFails? && fault.after < |lines|)
      ensures text == Unlines(if ok then lines else lines[..fault.after])
    {
      text := "";
      var i := 0;
      while i < |lines|
        invariant 0 <= i <= |lines|
        invariant text == Unlines(lines[..i])
        invariant fault.WriteFails? ==> i <= fault.after
      {
        if fault == WriteFails(i) {
          return false;
        }
        UnlinesNext(lines, i);
        text := text + (lines[i] + "\n");
        i := i + 1;
      }
      assert lines[..i] == lines;
      return true;
    }

    method DeleteExport(directory: string, fault: Fault) returns (r: Reply)
      modifies this
      ensures (View(), r) == Deleted(old(View()), directory, fault)
    {
      if fault.OpenFails? {
        return Reply(generation, false);
      }
      var lines := LinesWithout(directory);
      var written := WriteLines(lines, fault);
      if !written {
        return Reply(generation, false);
      }
      generation := generation + 1;
      return Reply(generation, true);
    }

    /** `runs` counts the executions of `exportfs -r`. */
    method ResyncNFSMountd(generation: int, attempts: Attempts) returns (ok: bool, runs: nat)
      modifies this
      ensures (View(), ok) == Resynced(old(View()), generation, attempts)
      ensures ok <==> old(syncedGeneration) >= generation || attempts.first || attempts.second
      ensures runs == if old(syncedGeneration) >= generation then 0 else if attempts.first then 1 else 2
    {
      runs := 0;
      if syncedGeneration >= generation {
        savedUpdates := savedUpdates + 1;
        return true, 0;
      }
      var retries := 0;
      while retries < 2
        invariant 0 <= retries <= 2 && runs == retries
        invariant View() == old(View())
        invariant retries >= 1 ==> !attempts.first
        invariant retries >= 2 ==> !attempts.second
      {
        var succeeded := if retries == 0 then attempts.first else attempts.second;
        runs := runs + 1;
        if succeeded {
          syncedGeneration := generation;
          kernel := text;
          return true, runs;
        }
        retries := retries + 1;
      }
      return false, runs;
    }
  }
}

/** What the operations of nfs/exports.go do to the text of the exports file. */
module ExportsText {
  import opened Wrappers
  import opened Text

  // --- Lines, and selection by prefix ---

  function TrimAll(lines: seq<string>): seq<string> {
    seq(|lines|, i requires 0 <= i < |lines| => TrimSpace(lines[i]))
  }

  function TrimmedLines(text: string): seq<string> {
    TrimAll(ScanLines(text))
  }

  function Matching(lines: seq<string>, prefix: string): seq<string> {
    if lines == [] then []
    else
      var n := |lines| - 1;
      Matching(lines[..n], prefix) + if prefix <= lines[n] then [lines[n]] else []
  }

  function Without(lines: seq<string>, prefix: string): seq<string> {
    if lines == [] then []
    else
      var n := |lines| - 1;
      Without(lines[..n], prefix) + if prefix <= lines[n] then [] else [lines[n]]
  }

  ghost predicate AnyMatch(lines: seq<string>, prefix: string) {
    exists i :: 0 <= i < |lines| && prefix <= lines[i]
  }

  ghost predicate Listed(text: string, directory: string) {
    AnyMatch(TrimmedLines(text), directory)
  }

  // --- The edits ---

  function Entry(directory: string, options: string): string {
    directory + " " + options
  }

  function AddText(text: string, directory: string, options: string): string {
    text + (Entry(directory, options) + "\n")
  }

  function DeleteText(text: string, directory: string): string {
    Unlines(Without(TrimmedLines(text), directory))
  }

  // --- Facts about selection ---

  lemma {:induction false} WithoutAppend(a: seq<string>, b: seq<string>, prefix: string)
    ensures Without(a + b, prefix) == Without(a, prefix) + Without(b, prefix)
  {
    if b == [] {
      assert a + b == a;
    } else {
      var n := |b| - 1;
      assert (a + b)[..|a + b| - 1] == a + b[..n];
      WithoutAppend(a, b[..n], prefix);
    }
  }

  lemma {:induction false} MatchingAppend(a: seq<string>, b: seq<string>, prefix: string)
    ensures Matching(a + b, prefix) == Matching(a, prefix) + Matching(b, prefix)
  {
    if b == [] {
      assert a + b == a;
    } else {
      var n := |b| - 1;
      assert (a + b)[..|a + b| - 1] == a + b[..n];
      MatchingAppend(a, b[..n], prefix);
    }
  }

  lemma AnyMatchAppend(lines: seq<string>, last: string, prefix: string)
    ensures AnyMatch(lines + [last], prefix) <==> AnyMatch(lines, prefix) || prefix <= last
  {
    var all := lines + [last];
    if AnyMatch(lines, prefix) {
      var i :| 0 <= i < |lines| && prefix <= lines[i];
      assert prefix <= all[i];
    }
    if prefix <= last {
      assert prefix <= all[|lines|];
    }
  }

  /** What stays are the lines of the text that do not match, and all of them. */
  lemma {:induction false} WithoutFacts(lines: seq<string>, prefix: string)
    ensures forall l :: l in Without(lines, prefix) <==> l in lines && !(prefix <= l)
    ensures !AnyMatch(Without(lines, prefix), prefix)
    ensures Without(lines, prefix) == lines <==> !AnyMatch(lines, prefix)
    ensures |Without(lines, prefix)| <= |lines|
  {
    if lines != [] {
      var n := |lines| - 1;
      WithoutFacts(lines[..n], prefix);
      AnyMatchAppend(lines[..n], lines[n], prefix);
      AnyMatchAppend(Without(lines[..n], prefix), lines[n], prefix);
      assert lines == lines[..n] + [lines[n]];
    }
  }

  lemma {:induction false} MatchingFacts(lines: seq<string>, prefix: string)
    ensures forall l :: l in Matching(lines, prefix) <==> l in lines && prefix <= l
    ensures Matching(lines, prefix) != [] <==> AnyMatch(lines, prefix)
  {
    if lines != [] {
      var n := |lines| - 1;
      MatchingFacts(lines[..n], prefix);
      AnyMatchAppend(lines[..n], lines[n], prefix);
      assert lines == lines[..n] + [lines[n]];
    }
  }

  // --- Canonical files ---

  /** Every line ends with a newline and has no blank at either end. */
  ghost predicate Canonical(text: string) {
    NewlineTerminated(text) && forall l :: l in Split(text, '\n') ==> Trimmed(l)
  }

  ghost predicate CleanLine(line: string) {
    Trimmed(line) && '\n' !in line
  }

  lemma TrimmedLinesFacts(text: string)
    ensures forall l :: l in TrimmedLines(text) ==> CleanLine(l) && |l| <= |text|
    ensures TrimmedLines(text) == ScanLines(text) <==> forall l :: l in ScanLines(text) ==> Trimmed(l)
  {
    ScanLinesFacts(text);
    var raw := ScanLines(text);
    forall i | 0 <= i < |raw|
      ensures CleanLine(TrimSpace(raw[i])) && |TrimSpace(raw[i])| <= |text|
      ensures TrimSpace(raw[i]) == raw[i] <==> Trimmed(raw[i])
    {
      TrimSpaceFacts(raw[i]);
      assert raw[i] in raw;
    }
    if TrimmedLines(text) == raw {
      forall l | l in raw ensures Trimmed(l) {
        var i :| 0 <= i < |raw| && raw[i] == l;
        assert TrimmedLines(text)[i] == raw[i];
      }
    } else {
      var i :| 0 <= i < |raw| && TrimmedLines(text)[i] != raw[i];
      assert raw[i] in raw;
    }
  }

  /** Clean lines are read back as they were written, and need no trimming. */
  lemma ReadBack(lines: seq<string>)
    requires forall l :: l in lines ==> CleanLine(l)
    ensures ScanLines(Unlines(lines)) == lines == TrimmedLines(Unlines(lines))
  {
    ScanUnlines(lines);
    TrimmedLinesFacts(Unlines(lines));
  }

  lemma {:induction false} SplitUnlines(lines: seq<string>)
    requires forall l :: l in lines ==> '\n' !in l
    ensures Split(Unlines(lines), '\n') == lines + [""]
  {
    if lines != [] {
      SplitUnlines(lines[1..]);
      SplitFirst(lines[0], Unlines(lines[1..]), '\n');
      assert lines == [lines[0]] + lines[1..];
    }
  }

  lemma {:induction false} UnlinesSplit(text: string)
    requires Canonical(text)
    ensures Unlines(TrimmedLines(text)) == text
    decreases |text|
  {
    if text != "" {
      assert text[|text| - 1] in text;
      var line, rest := FirstLine(text);
      SplitFirst(line, rest, '\n');
      assert Split(text, '\n')[0] == line;
      assert Canonical(rest) by {
        forall l | l in Split(rest, '\n') ensures Trimmed(l) {
          assert l in Split(text, '\n');
        }
      }
      UnlinesSplit(rest);
      TrimmedFirst(line, rest);
    }
  }

  lemma TrimmedFirst(line: string, rest: string)
    requires Trimmed(line) && '\n' !in line
    ensures Unlines(TrimmedLines(line + ['\n'] + rest)) == line + ['\n'] + Unlines(TrimmedLines(rest))
  {
    ScanFirst(line, rest);
    TrimSpaceFacts(line);
    assert DropCR(line) == line;
    assert TrimAll([line] + ScanLines(rest)) == [line] + TrimmedLines(rest);
    assert ([line] + TrimmedLines(rest))[1..] == TrimmedLines(rest);
  }

  /** A file is canonical exactly when reading, trimming and rewriting give it back. */
  lemma CanonicalIff(text: string)
    ensures Canonical(text) <==> Unlines(TrimmedLines(text)) == text
  {
    if Canonical(text) {
      UnlinesSplit(text);
    }
    var lines := TrimmedLines(text);
    TrimmedLinesFacts(text);
    UnlinesTerminated(lines);
    SplitUnlines(lines);
  }

  lemma UnlinesCanonical(lines: seq<string>)
    requires forall l :: l in lines ==> CleanLine(l)
    ensures Canonical(Unlines(lines))
  {
    ReadBack(lines);
    CanonicalIff(Unlines(lines));
  }

  // --- What the edits do to the lines ---

  lemma {:induction false} LastLine(text: string) returns (before: string, last: string)
    requires !NewlineTerminated(text)
    ensures text == before + last && NewlineTerminated(before) && last != "" && '\n' !in last
    decreases |text|
  {
    if '\n' in text {
      var line, rest := FirstLine(text);
      before, last := LastLine(rest);
      Associative(line + ['\n'], before, last);
      before := line + ['\n'] + before;
    } else {
      before, last := "", text;
    }
  }

  lemma AddedLine(text: string, directory: string, options: string)
    requires '\n' !in directory && '\n' !in options
    requires NewlineTerminated(text)
    ensures ScanLines(AddText(text, directory, options)) == ScanLines(text) + [DropCR(Entry(directory, options))]
  {
    var entry := Entry(directory, options);
    assert AddText(text, directory, options) == text + (entry + "\n");
    ScanOne(entry);
    ScanAppend(text, entry + "\n");
  }

  lemma LineCount(before: string, line: string, end: string)
    requires NewlineTerminated(before) && line != "" && '\n' !in line
    requires end == "" || end == "\n"
    ensures |ScanLines(before + (line + end))| == |ScanLines(before)| + 1
  {
    ScanAppend(before, line + end);
    if end == "" {
      assert line + end == line;
      ScanUnterminated(line);
    } else {
      ScanOne(line);
    }
  }

  lemma Regroup(a: string, b: string, c: string, d: string)
    ensures a + b + (c + d) == a + (b + c + d)
  {
  }

  lemma GluedLine(text: string, line: string)
    requires '\n' !in line
    requires !NewlineTerminated(text)
    ensures |ScanLines(text + (line + "\n"))| == |ScanLines(text)|
  {
    var before, last := LastLine(text);
    assert |ScanLines(text)| == |ScanLines(before)| + 1 by {
      assert before + (last + "") == text;
      LineCount(before, last, "");
    }
    assert text + (line + "\n") == before + (last + line + "\n") by {
      Regroup(before, last, line, "\n");
    }
    LineCount(before, last + line, "\n");
  }

  /** An added entry becomes a line of its own exactly when the file ended with a newline;
      otherwise it is glued to the last line. */
  lemma AddedLineIff(text: string, directory: string, options: string)
    requires '\n' !in directory && '\n' !in options
    ensures NewlineTerminated(text) ==>
              ScanLines(AddText(text, directory, options)) == ScanLines(text) + [DropCR(Entry(directory, options))]
    ensures |ScanLines(AddText(text, directory, options))| == |ScanLines(text)| + 1 <==> NewlineTerminated(text)
  {
    if NewlineTerminated(text) {
      AddedLine(text, directory, options);
    } else {
      GluedLine(text, Entry(directory, options));
    }
  }

  /** After a deletion the file holds, in order, the trimmed lines that do not start with
      the directory, each on a clean line. */
  lemma DeletedLines(text: string, directory: string)
    ensures TrimmedLines(DeleteText(text, directory)) == Without(TrimmedLines(text), directory)
    ensures Canonical(DeleteText(text, directory))
    ensures !Listed(DeleteText(text, directory), directory)
  {
    var kept := Without(TrimmedLines(text), directory);
    TrimmedLinesFacts(text);
    WithoutFacts(TrimmedLines(text), directory);
    ReadBack(kept);
    UnlinesCanonical(kept);
  }

  lemma EntryLine(directory: string, options: string)
    requires directory != "" && Trimmed(directory)
    ensures directory <= TrimSpace(DropCR(Entry(directory, options)))
  {
    var rest := " " + options;
    assert Entry(directory, options) == directory + rest;
    var cut := DropCR(directory + rest);
    assert cut == directory + rest[..|cut| - |directory|];
    TrimSpaceKeeps(directory, rest[..|cut| - |directory|]);
  }

  lemma AddThenDeleteLines(text: string, directory: string, options: string, prefix: string)
    requires directory != "" && Trimmed(directory) && '\n' !in directory && '\n' !in options
    requires prefix <= directory && !Listed(text, prefix) && NewlineTerminated(text)
    ensures Without(TrimmedLines(AddText(text, directory, options)), prefix) == TrimmedLines(text)
  {
    var line := DropCR(Entry(directory, options));
    AddedLine(text, directory, options);
    EntryLine(directory, options);
    var lines := TrimmedLines(text);
    assert TrimAll(ScanLines(text) + [line]) == lines + [TrimSpace(line)];
    assert (lines + [TrimSpace(line)])[..|lines|] == lines;
    WithoutFacts(lines, prefix);
  }

  /** Adding an entry and deleting it again, by its directory or a prefix of it that no
      line had, gives back the file, character for character, exactly when the file was
      canonical. */
  lemma AddThenDelete(text: string, directory: string, options: string, prefix: string)
    requires directory != "" && Trimmed(directory) && '\n' !in directory && '\n' !in options
    requires prefix <= directory && !Listed(text, prefix)
    ensures DeleteText(AddText(text, directory, options), prefix) == text <==> Canonical(text)
  {
    var added := AddText(text, directory, options);
    if NewlineTerminated(text) {
      AddThenDeleteLines(text, directory, options, prefix);
      CanonicalIff(text);
    } else {
      UnlinesTerminated(Without(TrimmedLines(added), prefix));
    }
  }

  /** An entry added to a file that ends with a newline is found. */
  lemma AddedIsListed(text: string, directory: string, options: string)
    requires directory != "" && Trimmed(directory) && '\n' !in directory && '\n' !in options
    requires NewlineTerminated(text)
    ensures Listed(AddText(text, directory, options), directory)
  {
    var line := DropCR(Entry(directory, options));
    AddedLine(text, directory, options);
    EntryLine(directory, options);
    assert directory <= TrimmedLines(AddText(text, directory, options))[|ScanLines(text)|];
  }

  /** A failed lookup can always be arranged: some directory is not in the file. */
  lemma SomeUnlisted(text: string) returns (directory: string)
    ensures directory != "" && !Listed(text, directory)
  {
    directory := seq(|text| + 1, _ => 'x');
    TrimmedLinesFacts(text);
    forall i | 0 <= i < |TrimmedLines(text)| ensures !(directory <= TrimmedLines(text)[i]) {
      assert TrimmedLines(text)[i] in TrimmedLines(text);
    }
  }

  // --- The three queries ---

  function FirstMatch(lines: seq<string>, prefix: string): Option<string> {
    if lines == [] then None
    else if prefix <= lines[0] then Some(lines[0])
    else FirstMatch(lines[1..], prefix)
  }

  lemma {:induction false} FirstMatchIsFirst(lines: seq<string>, prefix: string)
    ensures FirstMatch(lines, prefix) ==
            if Matching(lines, prefix) == [] then None else Some(Matching(lines, prefix)[0])
  {
    if lines != [] {
      FirstMatchIsFirst(lines[1..], prefix);
      assert lines == [lines[0]] + lines[1..];
      MatchingAppend([lines[0]], lines[1..], prefix);
    }
  }

  /** On a file of trimmed lines the three queries agree: an entry is reported to exist
      exactly when one is found, and it is the first of those listed. */
  lemma QueriesAgree(text: string, query: string)
    requires forall l :: l in ScanLines(text) ==> Trimmed(l)
    ensures Listed(text, query) <==> FirstMatch(TrimmedLines(text), query).Some?
    ensures Listed(text, query) <==> Matching(ScanLines(text), query) != []
    ensures Listed(text, query) ==>
              FirstMatch(TrimmedLines(text), query).value == Matching(ScanLines(text), query)[0]
  {
    TrimmedLinesFacts(text);
    FirstMatchIsFirst(TrimmedLines(text), query);
    MatchingFacts(TrimmedLines(text), query);
  }

  lemma {:induction false} MatchingAll(lines: seq<string>)
    ensures Matching(lines, "") == lines
  {
    if lines != [] {
      MatchingAll(lines[..|lines| - 1]);
    }
  }

  /** The query for all matches, that does not trim, answers as the two others do whatever
      is asked, exactly if no line has a blank at either end. */
  lemma QueriesAgreeIff(text: string)
    ensures (forall query :: Matching(ScanLines(text), query) == Matching(TrimmedLines(text), query)) <==>
            forall l :: l in ScanLines(text) ==> Trimmed(l)
  {
    TrimmedLinesFacts(text);
    MatchingAll(ScanLines(text));
    MatchingAll(TrimmedLines(text));
    if ScanLines(text) != TrimmedLines(text) {
      assert Matching(ScanLines(text), "") != Matching(TrimmedLines(text), "");
    }
  }

  /** A line indented by a blank is reported by CheckExport and missed by GetExports. */
  lemma QueriesDisagreeOnIndentedLine()
    ensures Listed(" /a b\n", "/a") && Matching(ScanLines(" /a b\n"), "/a") == []
  {
    ScanOne(" /a b");
    assert " /a b" + "\n" == " /a b\n";
    var lines := TrimmedLines(" /a b\n");
    assert TrimLeft(" /a b") == "/a b" by { assert " /a b"[1..] == "/a b"; }
    assert lines == ["/a b"];
    assert "/a" <= lines[0];
  }
}

/** The string operations the program takes from its standard library. Strings are
    sequences of ASCII characters. */
module Text {

  // --- White space ---

  predicate IsSpace(c: char) {
    c == ' ' || '\t' <= c <= '\r'
  }

  function TrimLeft(s: string): string {
    if s != "" && IsSpace(s[0]) then TrimLeft(s[1..]) else s
  }

  function TrimRight(s: string): string {
    if s != "" && IsSpace(s[|s| - 1]) then TrimRight(s[..|s| - 1]) else s
  }

  function TrimSpace(s: string): string {
    TrimRight(TrimLeft(s))
  }

  predicate Trimmed(s: string) {
    s != "" ==> !IsSpace(s[0]) && !IsSpace(s[|s| - 1])
  }

  lemma {:induction false} TrimLeftFacts(s: string)
    ensures |TrimLeft(s)| <= |s|
    ensures TrimLeft(s) != "" ==> !IsSpace(TrimLeft(s)[0])
    ensures forall c :: c in TrimLeft(s) ==> c in s
  {
    if s != "" && IsSpace(s[0]) {
      TrimLeftFacts(s[1..]);
    }
  }

  lemma {:induction false} TrimRightFacts(s: string)
    ensures TrimRight(s) <= s
    ensures TrimRight(s) != "" ==> !IsSpace(TrimRight(s)[|TrimRight(s)| - 1])
  {
    if s != "" && IsSpace(s[|s| - 1]) {
      TrimRightFacts(s[..|s| - 1]);
    }
  }

  /** Trimming gives a trimmed string made of the same characters, and changes nothing
      exactly when there was nothing to trim. */
  lemma TrimSpaceFacts(s: string)
    ensures Trimmed(TrimSpace(s))
    ensures |TrimSpace(s)| <= |s|
    ensures forall c :: c in TrimSpace(s) ==> c in s
    ensures TrimSpace(s) == s <==> Trimmed(s)
  {
    TrimLeftFacts(s);
    TrimRightFacts(TrimLeft(s));
  }

  lemma {:induction false} TrimRightKeeps(d: string, rest: string)
    requires d != "" && !IsSpace(d[|d| - 1])
    ensures d <= TrimRight(d + rest)
  {
    var s := d + rest;
    if rest != "" && IsSpace(s[|s| - 1]) {
      assert s[..|s| - 1] == d + rest[..|rest| - 1];
      TrimRightKeeps(d, rest[..|rest| - 1]);
    }
  }

  lemma TrimSpaceKeeps(d: string, rest: string)
    requires d != "" && Trimmed(d)
    ensures d <= TrimSpace(d + rest)
  {
    TrimRightKeeps(d, rest);
  }

  // --- Searching and replacing ---

  function IndexOf(s: string, c: char): (i: nat)
    ensures i <= |s|
    ensures c !in s[..i]
    ensures i < |s| ==> s[i] == c
  {
    if s == "" || s[0] == c then 0
    else
      var j := IndexOf(s[1..], c);
      assert s[..j + 1] == [s[0]] + s[1..][..j];
      j + 1
  }

  /** The first place where `sub` starts in `s`, or -1. */
  function Find(s: string, sub: string): (i: int)
    ensures -1 <= i <= |s|
    ensures i >= 0 ==> i + |sub| <= |s|
    ensures i >= 0 ==> s[i..i + |sub|] == sub
    ensures sub <= s ==> i == 0
  {
    if sub <= s then 0
    else if s == "" then -1
    else
      var j := Find(s[1..], sub);
      if j < 0 then -1 else assert s[1..][j..j + |sub|] == s[j + 1..j + 1 + |sub|]; j + 1
  }

  predicate Contains(s: string, sub: string) {
    Find(s, sub) >= 0
  }

  ghost predicate OccursAt(s: string, sub: string, i: nat) {
    i + |sub| <= |s| && s[i..i + |sub|] == sub
  }

  lemma {:induction false} FindsFirst(s: string, sub: string, i: nat)
    requires OccursAt(s, sub, i)
    ensures 0 <= Find(s, sub) <= i
  {
    if !(sub <= s) {
      assert i > 0 && s[1..][i - 1..i - 1 + |sub|] == sub;
      FindsFirst(s[1..], sub, i - 1);
    }
  }

  lemma ContainsIff(s: string, sub: string)
    ensures Contains(s, sub) <==> exists i: nat :: OccursAt(s, sub, i)
  {
    if Contains(s, sub) {
      assert OccursAt(s, sub, Find(s, sub));
    }
    forall i: nat | OccursAt(s, sub, i)
      ensures Contains(s, sub)
    {
      FindsFirst(s, sub, i);
    }
  }

  /** strings.Replace with a count of one. */
  function ReplaceFirst(s: string, old_: string, new_: string): string {
    var i := Find(s, old_);
    if i < 0 then s else s[..i] + new_ + s[i + |old_|..]
  }

  /** The first occurrence is replaced. */
  lemma FirstReplaced(s: string, old_: string, new_: string, i: nat)
    requires OccursAt(s, old_, i) && forall j: nat :: j < i ==> !OccursAt(s, old_, j)
    ensures ReplaceFirst(s, old_, new_) == s[..i] + new_ + s[i + |old_|..]
  {
    FindsFirst(s, old_, i);
    assert OccursAt(s, old_, Find(s, old_));
    assert Find(s, old_) == i;
  }

  lemma NothingReplaced(s: string, old_: string, new_: string)
    requires forall j: nat :: !OccursAt(s, old_, j)
    ensures ReplaceFirst(s, old_, new_) == s
  {
    ContainsIff(s, old_);
  }

  /** strings.ReplaceAll of one character by nothing. */
  function Strip(s: string, c: char): string {
    if s == "" then ""
    else if s[0] == c then Strip(s[1..], c)
    else [s[0]] + Strip(s[1..], c)
  }

  lemma {:induction false} StripConcat(a: string, b: string, c: char)
    ensures Strip(a + b, c) == Strip(a, c) + Strip(b, c)
  {
    if a == "" {
      assert a + b == b;
    } else {
      assert (a + b)[1..] == a[1..] + b;
      StripConcat(a[1..], b, c);
    }
  }

  lemma {:induction false} StripAbsent(s: string, c: char)
    requires c !in s
    ensures Strip(s, c) == s
  {
    if s != "" {
      StripAbsent(s[1..], c);
    }
  }

  lemma HeadTail(a: string, s: string)
    requires a != "" && s != ""
    ensures a <= s <==> a[0] == s[0] && a[1..] <= s[1..]
  {
    if a[0] == s[0] && a[1..] <= s[1..] {
      assert a == [a[0]] + a[1..] && s == [s[0]] + s[1..];
    }
  }

  /** A string without the separator is a prefix of a separated string exactly when it is
      a prefix of the first part; with the separator, when it is the first part. */
  lemma {:induction false} PrefixBefore(a: string, b: string, sep: char, rest: string)
    requires sep !in a && sep !in b
    ensures a <= b + [sep] + rest <==> a <= b
    ensures a + [sep] <= b + [sep] + rest <==> a == b
  {
    var s := b + [sep] + rest;
    if b == "" {
      assert s[0] == sep;
    } else if a != "" && a[0] == b[0] {
      assert s[1..] == b[1..] + [sep] + rest;
      assert (a + [sep])[1..] == a[1..] + [sep];
      PrefixBefore(a[1..], b[1..], sep, rest);
      HeadTail(a, s);
      HeadTail(a + [sep], s);
      assert a == b <==> a[1..] == b[1..];
    } else {
      assert s[0] == b[0] && (a + [sep])[0] == if a == "" then sep else a[0];
    }
  }

  // --- Splitting and joining ---

  function Split(s: string, sep: char): (parts: seq<string>)
    ensures |parts| >= 1
    decreases |s|
  {
    var i := IndexOf(s, sep);
    if i == |s| then [s] else [s[..i]] + Split(s[i + 1..], sep)
  }

  function Join(parts: seq<string>, sep: char): string {
    if |parts| == 0 then ""
    else if |parts| == 1 then parts[0]
    else parts[0] + [sep] + Join(parts[1..], sep)
  }

  lemma JoinCons(first: string, rest: seq<string>, sep: char)
    requires rest != []
    ensures Join([first] + rest, sep) == first + [sep] + Join(rest, sep)
  {
    assert ([first] + rest)[1..] == rest;
  }

  lemma {:induction false} IndexOfUnique(s: string, c: char, i: nat)
    requires i < |s| && s[i] == c && c !in s[..i]
    ensures IndexOf(s, c) == i
  {
    if i > 0 {
      assert s[..i] == [s[0]] + s[1..][..i - 1];
      IndexOfUnique(s[1..], c, i - 1);
    }
  }

  lemma IndexOfConcat(a: string, b: string, sep: char)
    requires sep !in a
    ensures IndexOf(a + [sep] + b, sep) == |a|
  {
    var s := a + [sep] + b;
    assert s[..|a|] == a;
    IndexOfUnique(s, sep, |a|);
  }

  lemma IndexOfAbsent(s: string, c: char)
    ensures IndexOf(s, c) == |s| <==> c !in s
  {
    assert s[..|s|] == s;
  }

  /** One step of splitting: up to the first separator. */
  lemma SplitFirst(a: string, rest: string, sep: char)
    requires sep !in a
    ensures Split(a + [sep] + rest, sep) == [a] + Split(rest, sep)
  {
    IndexOfConcat(a, rest, sep);
    var s := a + [sep] + rest;
    assert s[..|a|] == a && s[|a| + 1..] == rest;
  }

  lemma SplitAbsent(s: string, sep: char)
    requires sep !in s
    ensures Split(s, sep) == [s]
  {
    IndexOfAbsent(s, sep);
  }

  /** Every string is its part before the first separator, the separator, and the rest. */
  lemma FirstPart(s: string, sep: char) returns (first: string, rest: string)
    requires sep in s
    ensures s == first + [sep] + rest && sep !in first && |rest| < |s|
    ensures Split(s, sep) == [first] + Split(rest, sep)
  {
    IndexOfAbsent(s, sep);
    var i := IndexOf(s, sep);
    first, rest := s[..i], s[i + 1..];
    assert s == first + [sep] + rest;
    SplitFirst(first, rest, sep);
  }

  /** Joining undoes splitting. */
  lemma {:induction false} JoinSplit(s: string, sep: char)
    ensures Join(Split(s, sep), sep) == s
    decreases |s|
  {
    if sep in s {
      var first, rest := FirstPart(s, sep);
      JoinSplit(rest, sep);
      JoinCons(first, Split(rest, sep), sep);
    } else {
      SplitAbsent(s, sep);
    }
  }

  lemma Associative<T>(a: seq<T>, b: seq<T>, c: seq<T>)
    ensures a + b + c == a + (b + c)
  {
  }

  /** A separator in the middle splits the string in two independent halves. */
  lemma {:induction false} SplitConcat(a: string, b: string, sep: char)
    ensures Split(a + [sep] + b, sep) == Split(a, sep) + Split(b, sep)
    decreases |a|
  {
    if sep in a {
      var first, rest := FirstPart(a, sep);
      SplitConcat(rest, b, sep);
      assert a + [sep] + b == first + [sep] + (rest + [sep] + b);
      SplitFirst(first, rest + [sep] + b, sep);
      Associative([first], Split(rest, sep), Split(b, sep));
    } else {
      SplitAbsent(a, sep);
      SplitFirst(a, b, sep);
    }
  }

  /** Splitting undoes joining when no part holds the separator. */
  lemma {:induction false} SplitJoin(parts: seq<string>, sep: char)
    requires |parts| >= 1
    requires forall p :: p in parts ==> sep !in p
    ensures Split(Join(parts, sep), sep) == parts
  {
    SplitAbsent(parts[0], sep);
    if |parts| > 1 {
      var rest := parts[1..];
      assert parts == [parts[0]] + rest;
      SplitJoin(rest, sep);
      JoinCons(parts[0], rest, sep);
      SplitFirst(parts[0], Join(rest, sep), sep);
    } else {
      assert parts == [parts[0]];
    }
  }

  lemma {:induction false} JoinAppend(parts: seq<string>, last: string, sep: char)
    requires |parts| >= 1
    ensures Join(parts + [last], sep) == Join(parts, sep) + [sep] + last
  {
    if |parts| == 1 {
      assert (parts + [last])[1..] == [last];
    } else {
      assert (parts + [last])[1..] == parts[1..] + [last];
      JoinAppend(parts[1..], last, sep);
    }
  }

  lemma {:induction false} SplitParts(s: string, sep: char)
    ensures forall p :: p in Split(s, sep) ==> sep !in p
    ensures |Split(s, sep)| >= 2 <==> sep in s
    ensures Split(s, sep)[0] <= s
    decreases |s|
  {
    if sep in s {
      var first, rest := FirstPart(s, sep);
      SplitParts(rest, sep);
    } else {
      SplitAbsent(s, sep);
    }
  }

  // --- Lines ---

  function DropCR(line: string): string {
    if line != "" && line[|line| - 1] == '\r' then line[..|line| - 1] else line
  }

  /** The lines a bufio.Scanner delivers: ended by a newline or by the end of the text,
      one carriage return dropped, and no line after a final newline. */
  function ScanLines(text: string): seq<string>
    decreases |text|
  {
    if text == "" then []
    else
      var i := IndexOf(text, '\n');
      [DropCR(text[..i])] + if i < |text| then ScanLines(text[i + 1..]) else []
  }

  function Unlines(lines: seq<string>): string {
    if lines == [] then "" else lines[0] + "\n" + Unlines(lines[1..])
  }

  predicate NewlineTerminated(text: string) {
    text == "" || text[|text| - 1] == '\n'
  }

  lemma {:induction false} UnlinesAppend(a: seq<string>, b: seq<string>)
    ensures Unlines(a + b) == Unlines(a) + Unlines(b)
  {
    if a == [] {
      assert a + b == b;
    } else {
      assert (a + b)[1..] == a[1..] + b;
      UnlinesAppend(a[1..], b);
    }
  }

  lemma {:induction false} UnlinesTerminated(lines: seq<string>)
    ensures NewlineTerminated(Unlines(lines))
  {
    if lines != [] {
      UnlinesTerminated(lines[1..]);
    }
  }

  lemma ScanFirst(line: string, rest: string)
    requires '\n' !in line
    ensures ScanLines(line + ['\n'] + rest) == [DropCR(line)] + ScanLines(rest)
  {
    IndexOfConcat(line, rest, '\n');
    var text := line + ['\n'] + rest;
    assert text[..|line|] == line && text[|line| + 1..] == rest;
  }

  lemma FirstLine(text: string) returns (line: string, rest: string)
    requires '\n' in text
    ensures text == line + ['\n'] + rest && '\n' !in line && |rest| < |text|
    ensures NewlineTerminated(text) <==> NewlineTerminated(rest)
    ensures ScanLines(text) == [DropCR(line)] + ScanLines(rest)
  {
    line, rest := FirstPart(text, '\n');
    assert rest != "" ==> text[|text| - 1] == rest[|rest| - 1];
    ScanFirst(line, rest);
  }

  /** A carriage return before the newline is no part of the line. */
  lemma ScanDropsReturn(line: string, rest: string)
    requires '\n' !in line
    ensures ScanLines(line + "\r" + "\n" + rest) == [line] + ScanLines(rest)
  {
    ScanFirst(line + "\r", rest);
    assert line + "\r" + "\n" + rest == line + "\r" + ['\n'] + rest;
  }

  lemma ScanUnterminated(line: string)
    requires line != "" && '\n' !in line
    ensures ScanLines(line) == [DropCR(line)]
  {
    IndexOfAbsent(line, '\n');
    assert line[..|line|] == line;
  }

  lemma {:induction false} ScanLinesFacts(text: string)
    ensures forall l :: l in ScanLines(text) ==> |l| <= |text| && '\n' !in l
    decreases |text|
  {
    if '\n' in text {
      var line, rest := FirstLine(text);
      ScanLinesFacts(rest);
    } else if text != "" {
      ScanUnterminated(text);
    }
  }

  /** Text added after a newline is scanned on its own. */
  lemma {:induction false} ScanAppend(text: string, more: string)
    requires NewlineTerminated(text)
    ensures ScanLines(text + more) == ScanLines(text) + ScanLines(more)
    decreases |text|
  {
    if text == "" {
      assert text + more == more;
    } else {
      assert text[|text| - 1] in text;
      var line, rest := FirstLine(text);
      ScanAppend(rest, more);
      Associative(line + ['\n'], rest, more);
      ScanFirst(line, rest + more);
      Associative([DropCR(line)], ScanLines(rest), ScanLines(more));
    }
  }

  lemma ScanOne(line: string)
    requires '\n' !in line
    ensures ScanLines(line + "\n") == [DropCR(line)]
  {
    ScanFirst(line, "");
    assert line + "\n" == line + ['\n'] + "";
  }

  /** Scanning undoes writing lines that hold no line break of their own. */
  lemma {:induction false} ScanUnlines(lines: seq<string>)
    requires forall l :: l in lines ==> '\n' !in l && DropCR(l) == l
    ensures ScanLines(Unlines(lines)) == lines
  {
    if lines != [] {
      ScanUnlines(lines[1..]);
      ScanFirst(lines[0], Unlines(lines[1..]));
      assert Unlines(lines) == lines[0] + ['\n'] + Unlines(lines[1..]);
      assert lines == [lines[0]] + lines[1..];
    }
  }
}

/** Volume IDs and the names of the Services made from them (nfs/csinfs.go). */
module ServiceNames {
  import opened Text

  const NFS_PREFIX := "nfs-"
  const MAX_NAME := 63

  // --- Volume IDs ---

  predicate HasNFSPrefix(id: string) {
    NFS_PREFIX <= id
  }

  function ToArrayVolumeID(id: string): string {
    if HasNFSPrefix(id) then id[|NFS_PREFIX|..] else id
  }

  function ArrayToNFSVolumeID(arrayId: string): string {
    NFS_PREFIX + arrayId
  }

  /** The two conversions undo each other: always from the array's side, and from the
      NFS side exactly for the IDs that carry the prefix, which are also exactly the ones
      that the conversion changes. */
  lemma VolumeIDRoundTrip(id: string)
    ensures ToArrayVolumeID(ArrayToNFSVolumeID(id)) == id
    ensures ArrayToNFSVolumeID(ToArrayVolumeID(id)) == id <==> HasNFSPrefix(id)
    ensures ToArrayVolumeID(id) != id <==> HasNFSPrefix(id)
  {
    assert (NFS_PREFIX + id)[|NFS_PREFIX|..] == id;
    if HasNFSPrefix(id) {
      assert id == NFS_PREFIX + id[|NFS_PREFIX|..];
    }
  }

  // --- Service names ---

  predicate Alnum(c: char) {
    'a' <= c <= 'z' || '0' <= c <= '9'
  }

  predicate Separator(c: char) {
    c == '-' || c == '.'
  }

  predicate Legal(c: char) {
    Alnum(c) || Separator(c)
  }

  function LowerChar(c: char): char {
    if 'A' <= c <= 'Z' then (c as int + 32) as char else c
  }

  function Lower(id: string): string {
    seq(|id|, i requires 0 <= i < |id| => LowerChar(id[i]))
  }

  /** Where the first letter or digit starts; the length if there is none. */
  function FirstAlnum(id: string): (i: nat)
    ensures i <= |id|
    ensures forall j :: 0 <= j < i ==> !Alnum(id[j])
    ensures i < |id| ==> Alnum(id[i])
  {
    if id == "" || Alnum(id[0]) then 0 else FirstAlnum(id[1..]) + 1
  }

  /** Where the last letter or digit ends; zero if there is none. */
  function EndOfLastAlnum(id: string): (i: nat)
    ensures i <= |id|
    ensures forall j :: i <= j < |id| ==> !Alnum(id[j])
    ensures i > 0 ==> Alnum(id[i - 1])
  {
    if id == "" || Alnum(id[|id| - 1]) then |id| else EndOfLastAlnum(id[..|id| - 1])
  }

  function TrimEnds(id: string): string {
    var first, end := FirstAlnum(id), EndOfLastAlnum(id);
    if first == |id| then id else id[first..end]
  }

  function Truncate(id: string): string {
    if |id| > MAX_NAME then id[..MAX_NAME] else id
  }

  // The regular expression ^[a-z0-9]+([-.]?[a-z0-9]+)*$, construct by construct.

  predicate AlnumRun(s: string) {
    s != "" && forall c :: c in s ==> Alnum(c)
  }

  predicate Group(s: string) {
    AlnumRun(s) || (s != "" && Separator(s[0]) && AlnumRun(s[1..]))
  }

  predicate Groups(s: string)
    decreases |s|
  {
    s == "" || exists i :: 0 < i <= |s| && Group(s[..i]) && Groups(s[i..])
  }

  predicate MatchesValidID(s: string) {
    exists i :: 0 < i <= |s| && AlnumRun(s[..i]) && Groups(s[i..])
  }

  function ReplaceIllegal(s: string): string {
    seq(|s|, i requires 0 <= i < |s| => if Legal(s[i]) then s[i] else '-')
  }

  function VolumeIDToServiceName(id: string): string {
    var cut := Truncate(TrimEnds(Lower(id)));
    if MatchesValidID(cut) then cut else ReplaceIllegal(cut)
  }

  // --- What the regular expression accepts ---

  ghost predicate AllLegal(s: string) {
    forall c :: c in s ==> Legal(c)
  }

  ghost predicate NoAdjacentSeparators(s: string) {
    forall i :: 0 < i < |s| ==> !(Separator(s[i - 1]) && Separator(s[i]))
  }

  ghost predicate SpacedOut(s: string) {
    AllLegal(s) && NoAdjacentSeparators(s) && (s != "" ==> Alnum(s[|s| - 1]))
  }

  lemma {:induction false} GroupsAreSpacedOut(s: string)
    requires Groups(s)
    ensures SpacedOut(s)
    decreases |s|
  {
    if s != "" {
      var i :| 0 < i <= |s| && Group(s[..i]) && Groups(s[i..]);
      GroupsAreSpacedOut(s[i..]);
      GroupIsSpacedOut(s[..i]);
      SpacedOutConcat(s[..i], s[i..]);
      assert s == s[..i] + s[i..];
    }
  }

  lemma GroupIsSpacedOut(g: string)
    requires Group(g)
    ensures SpacedOut(g)
  {
    assert g == [g[0]] + g[1..];
    forall i | 0 < i < |g| ensures Alnum(g[i]) {
      assert g[i] == g[1..][i - 1];
      assert g[i] in g && g[i] in g[1..];
    }
  }

  lemma SpacedOutConcat(a: string, b: string)
    requires a != "" && SpacedOut(a) && SpacedOut(b)
    ensures SpacedOut(a + b)
  {
    forall i | 0 < i < |a + b| ensures !(Separator((a + b)[i - 1]) && Separator((a + b)[i])) {
      if i > |a| {
        assert (a + b)[i - 1] == b[i - 1 - |a|] && (a + b)[i] == b[i - |a|];
      }
    }
  }

  lemma {:induction false} SpacedOutAreGroups(s: string)
    requires SpacedOut(s)
    ensures Groups(s)
    decreases |s|
  {
    if s != "" {
      assert s[0] in s;
      var i := if Alnum(s[0]) then 1 else 2;
      assert Group(s[..i]) by {
        if i == 2 {
          assert !(Separator(s[0]) && Separator(s[1])) && s[1] in s;
          assert s[..2][1..] == [s[1]];
        }
      }
      SpacedOutAreGroups(s[i..]);
    }
  }

  /** The pattern accepts exactly the non-empty strings of letters, digits, '-' and '.'
      that begin and end with a letter or digit and have no two separators in a row. */
  lemma PatternMeaning(s: string)
    ensures MatchesValidID(s) <==> s != "" && Alnum(s[0]) && SpacedOut(s)
  {
    if MatchesValidID(s) {
      var i :| 0 < i <= |s| && AlnumRun(s[..i]) && Groups(s[i..]);
      GroupsAreSpacedOut(s[i..]);
      GroupIsSpacedOut(s[..i]);
      SpacedOutConcat(s[..i], s[i..]);
      assert s == s[..i] + s[i..];
      assert s[0] == s[..i][0];
    }
    if s != "" && Alnum(s[0]) && SpacedOut(s) {
      SpacedOutAreGroups(s[1..]);
      assert AlnumRun(s[..1]);
    }
  }

  // --- What each step of the pipeline does ---

  ghost predicate HasAlnum(s: string) {
    exists c :: c in s && Alnum(c)
  }

  /** Trimming leaves a piece of the string with a letter or digit at each end, and
      changes nothing exactly when that is already so or no letter or digit exists. */
  lemma TrimEndsFacts(s: string)
    ensures forall c :: c in TrimEnds(s) ==> c in s
    ensures HasAlnum(TrimEnds(s)) <==> HasAlnum(s)
    ensures HasAlnum(s) ==>
              TrimEnds(s) != "" && Alnum(TrimEnds(s)[0]) && Alnum(TrimEnds(s)[|TrimEnds(s)| - 1])
    ensures |TrimEnds(s)| == |s| <==> TrimEnds(s) == s
    ensures TrimEnds(s) == s <==> HasAlnum(s) ==> Alnum(s[0]) && Alnum(s[|s| - 1])
  {
    var first, end := FirstAlnum(s), EndOfLastAlnum(s);
    if first < |s| {
      assert Alnum(s[first]) && s[first] in s;
      var t := s[first..end];
      assert t[0] == s[first] && t[|t| - 1] == s[end - 1];
      assert t[0] in t;
    }
  }

  lemma ReplaceIllegalFacts(s: string)
    ensures AllLegal(ReplaceIllegal(s))
    ensures ReplaceIllegal(s) == s <==> AllLegal(s)
    ensures forall i :: 0 <= i < |s| ==> (Alnum(ReplaceIllegal(s)[i]) <==> Alnum(s[i]))
  {
    if AllLegal(s) {
      forall i | 0 <= i < |s| ensures ReplaceIllegal(s)[i] == s[i] {
        assert s[i] in s;
      }
    }
    if ReplaceIllegal(s) == s {
      forall c | c in s ensures Legal(c) {
        var i :| 0 <= i < |s| && s[i] == c;
        assert ReplaceIllegal(s)[i] == c;
      }
    }
  }

  lemma LowerFacts(s: string)
    ensures AllLegal(s) ==> Lower(s) == s
  {
    if AllLegal(s) {
      forall i | 0 <= i < |s| ensures Lower(s)[i] == s[i] {
        assert s[i] in s;
      }
    }
  }

  // --- The whole pipeline ---

  /** The pattern match is only a short cut: the name is the lower-cased, trimmed and cut
      ID with every illegal character replaced. */
  lemma FastPathIsRedundant(id: string)
    ensures VolumeIDToServiceName(id) == ReplaceIllegal(Truncate(TrimEnds(Lower(id))))
  {
    var cut := Truncate(TrimEnds(Lower(id)));
    PatternMeaning(cut);
    ReplaceIllegalFacts(cut);
  }

  predicate LetterOrDigit(c: char) {
    'A' <= c <= 'Z' || Alnum(c)
  }

  /** What becomes of one character of an ID. */
  function Cleaned(c: char): char {
    if 'A' <= c <= 'Z' then ('a' as int + (c as int - 'A' as int)) as char
    else if Legal(c) then c
    else '-'
  }

  /** The piece of the ID from its first to its last letter or digit; all of it if there
      is none. */
  ghost predicate NamedPiece(id: string, from: nat, to: nat) {
    && from <= to <= |id|
    && (if exists i :: 0 <= i < |id| && LetterOrDigit(id[i]) then
          && from < to && LetterOrDigit(id[from]) && LetterOrDigit(id[to - 1])
          && forall i :: 0 <= i < from || to <= i < |id| ==> !LetterOrDigit(id[i])
        else from == 0 && to == |id|)
  }

  lemma TrimMeaning(id: string, from: nat, to: nat)
    requires NamedPiece(id, from, to)
    ensures TrimEnds(Lower(id)) == Lower(id)[from..to]
  {
    var low := Lower(id);
    assert forall i :: 0 <= i < |id| ==> (Alnum(low[i]) <==> LetterOrDigit(id[i]));
    var first, end := FirstAlnum(low), EndOfLastAlnum(low);
    if first < |low| {
      assert LetterOrDigit(id[first]) && Alnum(low[from]) && Alnum(low[to - 1]);
      assert first == from;
      assert end == to;
    } else {
      assert low[0..|low|] == low;
    }
  }

  /** Every ID has such a piece. */
  lemma NamedPieceExists(id: string) returns (from: nat, to: nat)
    ensures NamedPiece(id, from, to)
  {
    var low := Lower(id);
    assert forall i :: 0 <= i < |id| ==> (Alnum(low[i]) <==> LetterOrDigit(id[i]));
    var first, end := FirstAlnum(low), EndOfLastAlnum(low);
    if first < |low| {
      assert LetterOrDigit(id[first]) && LetterOrDigit(id[end - 1]);
      from, to := first, end;
    } else {
      from, to := 0, |id|;
    }
  }

  lemma CutAndReplaced(piece: string)
    ensures var name := ReplaceIllegal(Truncate(piece));
            && |name| == (if |piece| > MAX_NAME then MAX_NAME else |piece|)
            && forall i :: 0 <= i < |name| ==> name[i] == if Legal(piece[i]) then piece[i] else '-'
  {
  }

  /** The name has the characters of the piece, cleaned, up to 63 of them. */
  ghost predicate ReadsAs(name: string, id: string, from: nat, to: nat)
    requires from <= to <= |id|
  {
    && |name| == (if to - from > MAX_NAME then MAX_NAME else to - from)
    && forall i :: 0 <= i < |name| ==> name[i] == Cleaned(id[from + i])
  }

  /** The name is that piece, cleaned character by character, up to 63 of them. */
  lemma NameMeaning(id: string, from: nat, to: nat)
    requires NamedPiece(id, from, to)
    ensures ReadsAs(VolumeIDToServiceName(id), id, from, to)
  {
    FastPathIsRedundant(id);
    TrimMeaning(id, from, to);
    var piece := Lower(id)[from..to];
    forall i | 0 <= i < |piece| ensures piece[i] == LowerChar(id[from + i]) {
      assert piece[i] == Lower(id)[from + i];
    }
    CutAndReplaced(piece);
  }

  /** Every name has at most 63 characters, all of them letters, digits, '-' or '.'; it
      starts with a letter or digit if the ID has one; only the empty ID has no name. */
  lemma NameShape(id: string)
    ensures |VolumeIDToServiceName(id)| <= MAX_NAME
    ensures AllLegal(VolumeIDToServiceName(id))
    ensures HasAlnum(Lower(id)) ==> VolumeIDToServiceName(id) != "" && Alnum(VolumeIDToServiceName(id)[0])
    ensures VolumeIDToServiceName(id) == "" <==> id == ""
  {
    FastPathIsRedundant(id);
    TrimEndsFacts(Lower(id));
    ReplaceIllegalFacts(Truncate(TrimEnds(Lower(id))));
  }

  /** A name can be a path element of an export line: it holds no slash, blank or newline. */
  lemma NameIsPathElement(id: string)
    ensures forall c :: c in VolumeIDToServiceName(id) ==> c != '/' && !IsSpace(c)
  {
    NameShape(id);
  }

  /** The names that the sanitiser leaves alone. */
  ghost predicate Settled(name: string) {
    && |name| <= MAX_NAME
    && AllLegal(name)
    && (HasAlnum(name) ==> Alnum(name[0]) && Alnum(name[|name| - 1]))
  }

  lemma UnchangedIff(id: string)
    ensures VolumeIDToServiceName(id) == id <==> Settled(id)
  {
    FastPathIsRedundant(id);
    LowerFacts(id);
    TrimEndsFacts(id);
    ReplaceIllegalFacts(id);
    if VolumeIDToServiceName(id) == id {
      NameShape(id);
      assert Lower(id) == id;
      var t := TrimEnds(id);
      assert |Truncate(t)| == |id|;
    }
  }

  /** The cut at 63 characters falls on a letter or digit, or there is nothing to cut. */
  ghost predicate CutsCleanly(id: string) {
    var trimmed := TrimEnds(Lower(id));
    |trimmed| <= MAX_NAME || Alnum(trimmed[MAX_NAME - 1])
  }

  /** The name ends with a letter or digit exactly when the cut does not expose a
      separator or an illegal character. */
  lemma EndsAlnumIff(id: string)
    requires HasAlnum(Lower(id))
    ensures var name := VolumeIDToServiceName(id);
            name != "" && (Alnum(name[|name| - 1]) <==> CutsCleanly(id))
  {
    FastPathIsRedundant(id);
    TrimEndsFacts(Lower(id));
    ReplaceIllegalFacts(Truncate(TrimEnds(Lower(id))));
  }

  /** Naming a name again changes nothing exactly when the cut was clean. */
  lemma IdempotentIff(id: string)
    ensures var name := VolumeIDToServiceName(id);
            VolumeIDToServiceName(name) == name <==> HasAlnum(Lower(id)) ==> CutsCleanly(id)
  {
    var name := VolumeIDToServiceName(id);
    NameShape(id);
    UnchangedIff(name);
    if HasAlnum(Lower(id)) {
      EndsAlnumIff(id);
      assert name[0] in name;
    } else {
      FastPathIsRedundant(id);
      TrimEndsFacts(Lower(id));
      var cut := Truncate(TrimEnds(Lower(id)));
      ReplaceIllegalFacts(cut);
      forall i | 0 <= i < |name| ensures !Alnum(name[i]) {
        assert cut[i] in Lower(id);
      }
    }
  }

  /** An ID whose name ends in '-': the 63rd character is a separator. */
  lemma CutNameMayEndInSeparator()
    ensures var id := seq(62, _ => 'a') + "-b";
            var name := VolumeIDToServiceName(id);
            name == seq(62, _ => 'a') + "-" && VolumeIDToServiceName(name) != name
  {
    var id := seq(62, _ => 'a') + "-b";
    assert AllLegal(id);
    LowerFacts(id);
    assert id[0] in id && id[63] in id;
    TrimEndsFacts(id);
    FastPathIsRedundant(id);
    var cut := id[..63];
    assert cut == seq(62, _ => 'a') + "-";
    assert AllLegal(cut);
    ReplaceIllegalFacts(cut);
    IdempotentIff(id);
  }

  /** A piece of an ID, cleaned and cut. */
  function CleanedPiece(id: string, from: nat, to: nat): string
    requires from <= to <= |id|
  {
    seq(if to - from > MAX_NAME then MAX_NAME else to - from, i requires 0 <= i < to - from => Cleaned(id[from + i]))
  }

  lemma NameIsPiece(id: string, from: nat, to: nat)
    requires NamedPiece(id, from, to)
    ensures VolumeIDToServiceName(id) == CleanedPiece(id, from, to)
  {
    NameMeaning(id, from, to);
    ReadsAsPiece(VolumeIDToServiceName(id), id, from, to);
  }

  lemma ReadsAsPiece(name: string, id: string, from: nat, to: nat)
    requires from <= to <= |id| && ReadsAs(name, id, from, to)
    ensures name == CleanedPiece(id, from, to)
  {
  }

  /** When two IDs get the same name: exactly if their pieces are the same once cleaned and
      cut to 63 characters. */
  lemma NamesCollideIff(a: string, from: nat, to: nat, b: string, start: nat, end: nat)
    requires NamedPiece(a, from, to) && NamedPiece(b, start, end)
    ensures VolumeIDToServiceName(a) == VolumeIDToServiceName(b) <==>
            CleanedPiece(a, from, to) == CleanedPiece(b, start, end)
  {
    NameIsPiece(a, from, to);
    NameIsPiece(b, start, end);
  }

  /** On the IDs that it leaves alone the naming is one to one. */
  lemma SettledNamesDiffer(a: string, b: string)
    requires Settled(a) && Settled(b)
    ensures VolumeIDToServiceName(a) == VolumeIDToServiceName(b) <==> a == b
  {
    UnchangedIff(a);
    UnchangedIff(b);
  }

  /** Two volumes can get the same name: the mapping is not injective. */
  lemma NamesMayCollide()
    ensures VolumeIDToServiceName("a_b") == "a-b" == VolumeIDToServiceName("a-b")
  {
    assert Lower("a_b") == "a_b";
    assert TrimEnds("a_b") == "a_b";
    FastPathIsRedundant("a_b");
    assert Settled("a-b");
    UnchangedIff("a-b");
  }
}

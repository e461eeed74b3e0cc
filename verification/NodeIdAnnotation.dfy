/** How a recovery finds the driver's ID of the selected node: by stripping and splitting
    the node's annotation, a JSON object of strings (nfs/noderecovery.go). The other reader
    of the annotation parses the JSON (nfs/k8s/k8s.go). */
module NodeIdAnnotation {
  import opened Text

  datatype Pair = Pair(key: string, value: string)

  // --- The annotation as it is printed ---

  function PrintPair(p: Pair): string {
    "\"" + p.key + "\":\"" + p.value + "\""
  }

  function PrintPairs(pairs: seq<Pair>): seq<string> {
    seq(|pairs|, i requires 0 <= i < |pairs| => PrintPair(pairs[i]))
  }

  /** Compact JSON; none of the strings needs an escape. */
  function Print(pairs: seq<Pair>): string {
    "{" + Join(PrintPairs(pairs), ',') + "}"
  }

  // --- The annotation as it is read ---

  function StripJson(s: string): string {
    Strip(Strip(Strip(s, '{'), '}'), '"')
  }

  /** The last part that starts with the driver's name and holds a colon decides. */
  function Parsed(parts: seq<string>, driver: string): string {
    if parts == [] then ""
    else
      var n := |parts| - 1;
      var subparts := Split(parts[n], ':');
      if driver <= parts[n] && |subparts| > 1 then subparts[1] else Parsed(parts[..n], driver)
  }

  method DriverNodeName(annotation: string, driver: string) returns (name: string)
    ensures name == Parsed(Split(StripJson(annotation), ','), driver)
  {
    var parts := Split(StripJson(annotation), ',');
    name := "";
    for i := 0 to |parts|
      invariant name == Parsed(parts[..i], driver)
    {
      assert parts[..i + 1][..i] == parts[..i];
      if driver <= parts[i] {
        var subparts := Split(parts[i], ':');
        if |subparts| > 1 {
          name := subparts[1];
        }
      }
    }
    assert parts[..|parts|] == parts;
  }

  // --- Reading undoes printing ---

  ghost predicate FreeOf(s: string, delimiters: string) {
    forall c :: c in delimiters ==> c !in s
  }

  /** Keys are free of all five delimiters; values may hold colons. */
  ghost predicate Plain(p: Pair) {
    FreeOf(p.key, "{}\",:") && FreeOf(p.value, "{}\",")
  }

  ghost predicate AllPlain(pairs: seq<Pair>) {
    forall i :: 0 <= i < |pairs| ==> Plain(pairs[i])
  }

  function Bare(p: Pair): string {
    p.key + [':'] + p.value
  }

  function BarePairs(pairs: seq<Pair>): seq<string> {
    seq(|pairs|, i requires 0 <= i < |pairs| => Bare(pairs[i]))
  }

  lemma StripJsonConcat(a: string, b: string)
    ensures StripJson(a + b) == StripJson(a) + StripJson(b)
  {
    StripConcat(a, b, '{');
    StripConcat(Strip(a, '{'), Strip(b, '{'), '}');
    StripConcat(Strip(Strip(a, '{'), '}'), Strip(Strip(b, '{'), '}'), '"');
  }

  lemma StripJsonAbsent(s: string)
    requires FreeOf(s, "{}\"")
    ensures StripJson(s) == s
  {
    var d := "{}\"";
    assert d[0] in d && d[1] in d && d[2] in d;
    StripAbsent(s, '{');
    StripAbsent(s, '}');
    StripAbsent(s, '"');
  }

  lemma StripJsonDelimiters()
    ensures StripJson("{") == StripJson("}") == StripJson("\"") == ""
    ensures StripJson("\":\"") == ":"
    ensures StripJson(",") == ","
  {
    StripBrackets();
    assert StripJson("\":\"") == ":" by {
      assert "\":\"" == "\"" + ":" + "\"";
      StripJsonConcat("\"" + ":", "\"");
      StripJsonConcat("\"", ":");
      StripJsonAbsent(":");
    }
    StripJsonAbsent(",");
  }

  lemma StripBrackets()
    ensures StripJson("{") == StripJson("}") == StripJson("\"") == ""
  {
    assert Strip("{", '{') == "" && Strip("", '}') == "" && Strip("", '"') == "";
    assert Strip("}", '{') == "}" && Strip("}", '}') == "";
    assert Strip("\"", '{') == "\"" && Strip("\"", '}') == "\"" && Strip("\"", '"') == "";
  }

  lemma StripPair(p: Pair)
    requires Plain(p)
    ensures StripJson(PrintPair(p)) == Bare(p)
  {
    var quote, middle := "\"", "\":\"";
    var a, b, c := quote + p.key, quote + p.key + middle, quote + p.key + middle + p.value;
    assert forall d :: d in "{}\"" ==> d in "{}\"," && d in "{}\",:" by {
      forall d | d in "{}\"" ensures d in "{}\"," && d in "{}\",:" {
        assert "{}\"," == "{}\"" + "," && "{}\",:" == "{}\"" + ",:";
      }
    }
    StripJsonConcat(c, quote);
    StripJsonConcat(b, p.value);
    StripJsonConcat(a, middle);
    StripJsonConcat(quote, p.key);
    StripJsonDelimiters();
    StripJsonAbsent(p.key);
    StripJsonAbsent(p.value);
  }

  lemma StripFirst(p: Pair, tail: string)
    requires Plain(p)
    ensures StripJson(PrintPair(p) + [','] + tail) == Bare(p) + [','] + StripJson(tail)
  {
    StripPair(p);
    StripJsonDelimiters();
    StripJsonConcat(PrintPair(p) + ",", tail);
    StripJsonConcat(PrintPair(p), ",");
  }

  lemma {:induction false} StripPairs(pairs: seq<Pair>)
    requires AllPlain(pairs)
    ensures StripJson(Join(PrintPairs(pairs), ',')) == Join(BarePairs(pairs), ',')
  {
    if |pairs| == 1 {
      StripPair(pairs[0]);
    } else if |pairs| > 1 {
      var rest := pairs[1..];
      StripPairs(rest);
      assert PrintPairs(pairs)[1..] == PrintPairs(rest) && BarePairs(pairs)[1..] == BarePairs(rest);
      StripFirst(pairs[0], Join(PrintPairs(rest), ','));
    }
  }

  /** The parts that a printed annotation is split into. */
  lemma PartsOfPrint(pairs: seq<Pair>)
    requires AllPlain(pairs)
    ensures Split(StripJson(Print(pairs)), ',') == if pairs == [] then [""] else BarePairs(pairs)
  {
    var body := Join(PrintPairs(pairs), ',');
    StripJsonConcat("{" + body, "}");
    StripJsonConcat("{", body);
    StripJsonDelimiters();
    StripPairs(pairs);
    assert StripJson(Print(pairs)) == Join(BarePairs(pairs), ',');
    if pairs == [] {
      SplitAbsent("", ',');
    } else {
      var bare := BarePairs(pairs);
      forall i | 0 <= i < |bare| ensures ',' !in bare[i] {
        assert Plain(pairs[i]);
        var k, v := "{}\",:", "{}\",";
        assert k[3] == ',' == v[3] && k[3] in k && v[3] in v;
      }
      SplitJoin(bare, ',');
    }
  }

  /** The value, up to its first colon, of the last key that extends the driver's name. */
  function LastExtending(pairs: seq<Pair>, driver: string): string {
    if pairs == [] then ""
    else
      var n := |pairs| - 1;
      if driver <= pairs[n].key then Split(pairs[n].value, ':')[0] else LastExtending(pairs[..n], driver)
  }

  lemma BarePart(p: Pair, driver: string)
    requires Plain(p) && ':' !in driver
    ensures driver <= Bare(p) <==> driver <= p.key
    ensures Split(Bare(p), ':') == [p.key] + Split(p.value, ':')
  {
    var d := "{}\",:";
    assert d[4] in d;
    SplitFirst(p.key, p.value, ':');
    PrefixBefore(driver, p.key, ':', p.value);
  }

  lemma {:induction false} ParsedBare(pairs: seq<Pair>, driver: string)
    requires AllPlain(pairs) && ':' !in driver
    ensures Parsed(BarePairs(pairs), driver) == LastExtending(pairs, driver)
  {
    if pairs != [] {
      var n := |pairs| - 1;
      BarePart(pairs[n], driver);
      assert BarePairs(pairs)[..n] == BarePairs(pairs[..n]);
      ParsedBare(pairs[..n], driver);
    }
  }

  /** What the code reads from any printed annotation: the value, up to its first colon, of
      the last key that extends the driver's name, or nothing. */
  lemma ReadPrinted(pairs: seq<Pair>, driver: string)
    requires AllPlain(pairs) && driver != "" && ':' !in driver
    ensures Parsed(Split(StripJson(Print(pairs)), ','), driver) == LastExtending(pairs, driver)
  {
    PartsOfPrint(pairs);
    if pairs == [] {
      assert [""][..0] == [];
    } else {
      ParsedBare(pairs, driver);
    }
  }

  // --- Agreement with the JSON lookup ---

  ghost predicate Maps(pairs: seq<Pair>, driver: string, value: string) {
    Pair(driver, value) in pairs
    && forall i, j :: 0 <= i < j < |pairs| ==> pairs[i].key != pairs[j].key
  }

  /** No later key extends the driver's name. */
  ghost predicate DriverKeyIsLast(pairs: seq<Pair>, driver: string) {
    forall i, j :: 0 <= i < j < |pairs| && pairs[i].key == driver ==> !(driver <= pairs[j].key)
  }

  lemma {:induction false} LastExtendingIsLookup(pairs: seq<Pair>, driver: string, value: string)
    requires Maps(pairs, driver, value) && DriverKeyIsLast(pairs, driver)
    ensures LastExtending(pairs, driver) == Split(value, ':')[0]
  {
    var i :| 0 <= i < |pairs| && pairs[i] == Pair(driver, value);
    var n := |pairs| - 1;
    if i < n {
      assert pairs[..n][i] == pairs[i];
      LastExtendingIsLookup(pairs[..n], driver, value);
    }
  }

  /** For a map whose driver key is followed by no key that extends it, stripping and
      splitting finds what a JSON lookup finds exactly when the value holds no colon. */
  lemma AgreesWithLookupIff(pairs: seq<Pair>, driver: string, value: string)
    requires AllPlain(pairs) && driver != "" && ':' !in driver
    requires Maps(pairs, driver, value) && DriverKeyIsLast(pairs, driver)
    ensures Parsed(Split(StripJson(Print(pairs)), ','), driver) == value <==> ':' !in value
  {
    ReadPrinted(pairs, driver);
    LastExtendingIsLookup(pairs, driver, value);
    SplitParts(value, ':');
    if ':' !in value {
      SplitAbsent(value, ':');
    } else {
      assert Split(value, ':')[0] in Split(value, ':');
    }
  }

  /** Otherwise the value of another key is read: that of the last key, whenever it
      extends the driver's name. */
  lemma ExtendingKeyIsRead(pairs: seq<Pair>, driver: string)
    requires AllPlain(pairs) && driver != "" && ':' !in driver
    requires pairs != [] && driver <= pairs[|pairs| - 1].key && ':' !in pairs[|pairs| - 1].value
    ensures Parsed(Split(StripJson(Print(pairs)), ','), driver) == pairs[|pairs| - 1].value
  {
    ReadPrinted(pairs, driver);
    SplitAbsent(pairs[|pairs| - 1].value, ':');
  }

  // --- Sorted keys, as an encoder of a map prints them ---

  predicate Before(a: string, b: string) {
    b != "" && (a == "" || a[0] < b[0] || (a[0] == b[0] && Before(a[1..], b[1..])))
  }

  ghost predicate Sorted(keys: seq<string>) {
    forall i, j :: 0 <= i < j < |keys| ==> Before(keys[i], keys[j])
  }

  function KeysOf(pairs: seq<Pair>): seq<string> {
    seq(|pairs|, i requires 0 <= i < |pairs| => pairs[i].key)
  }

  lemma {:induction false} ExtensionIsNotBefore(key: string, extension: string)
    requires key <= extension
    ensures !Before(extension, key)
  {
    if key != "" {
      assert extension[1..][..|key| - 1] == key[1..];
      ExtensionIsNotBefore(key[1..], extension[1..]);
    }
  }

  /** Among sorted keys, those that extend a key come after it. */
  lemma ExtensionsComeLater(keys: seq<string>, i: nat, j: nat)
    requires Sorted(keys) && i < |keys| && j < |keys| && keys[i] <= keys[j]
    ensures i <= j
    ensures i < j ==> keys[i] != keys[j]
  {
    ExtensionIsNotBefore(keys[i], keys[j]);
  }

  /** With these keys, whatever the values are, the code reads what a JSON lookup finds. */
  ghost predicate AlwaysReadsDriver(keys: seq<string>, driver: string) {
    forall pairs :: IsMapWith(pairs, keys, driver) ==>
      Parsed(Split(StripJson(Print(pairs)), ','), driver) == ValueOf(pairs, driver)
  }

  ghost predicate IsMapWith(pairs: seq<Pair>, keys: seq<string>, driver: string) {
    && AllPlain(pairs) && KeysOf(pairs) == keys
    && forall i :: 0 <= i < |pairs| && pairs[i].key == driver ==> ':' !in pairs[i].value
  }

  function ValueOf(pairs: seq<Pair>, key: string): string {
    if pairs == [] then "" else if pairs[0].key == key then pairs[0].value else ValueOf(pairs[1..], key)
  }

  lemma {:induction false} ValueFound(pairs: seq<Pair>, i: nat)
    requires i < |pairs| && forall j :: 0 <= j < i ==> pairs[j].key != pairs[i].key
    ensures ValueOf(pairs, pairs[i].key) == pairs[i].value
  {
    if i > 0 {
      assert pairs[1..][i - 1] == pairs[i];
      ValueFound(pairs[1..], i - 1);
    }
  }

  /** Values that tell the driver's key from those after it. */
  function MarkedPairs(keys: seq<string>, driver: string): seq<Pair> {
    seq(|keys|, i requires 0 <= i < |keys| => Pair(keys[i], if keys[i] == driver then "x" else ""))
  }

  lemma {:induction false} LaterExtensionIsRead(pairs: seq<Pair>, driver: string, j: nat)
    requires j < |pairs| && driver <= pairs[j].key
    requires forall k :: j <= k < |pairs| ==> pairs[k].value == ""
    ensures LastExtending(pairs, driver) == ""
  {
    SplitAbsent("", ':');
    if j < |pairs| - 1 {
      LaterExtensionIsRead(pairs[..|pairs| - 1], driver, j);
    }
  }

  /** From a map printed with sorted keys, the code reads the driver's value whatever the
      values are exactly if no other key extends the driver's name. */
  lemma SortedLookupIff(keys: seq<string>, driver: string)
    requires Sorted(keys) && driver in keys && driver != "" && forall k :: k in keys ==> FreeOf(k, "{}\",:")
    ensures AlwaysReadsDriver(keys, driver) <==> forall k :: k in keys && driver <= k ==> k == driver
  {
    var i :| 0 <= i < |keys| && keys[i] == driver;
    assert ':' !in driver by { assert "{}\",:"[4] in "{}\",:"; }
    forall j | 0 <= j < |keys| && driver <= keys[j] ensures i <= j && (i < j ==> keys[j] != driver) {
      ExtensionsComeLater(keys, i, j);
    }
    if j :| 0 <= j < |keys| && driver <= keys[j] && keys[j] != driver {
      assert keys[j] in keys;
      MarkedAreMisread(keys, driver, i, j);
    } else {
      forall pairs | IsMapWith(pairs, keys, driver)
        ensures Parsed(Split(StripJson(Print(pairs)), ','), driver) == ValueOf(pairs, driver)
      {
        OnlyKeyIsRead(pairs, keys, driver, i);
      }
    }
  }

  lemma MarkedAreMisread(keys: seq<string>, driver: string, i: nat, j: nat)
    requires Sorted(keys) && driver != "" && ':' !in driver && forall k :: k in keys ==> FreeOf(k, "{}\",:")
    requires i < j < |keys| && keys[i] == driver <= keys[j]
    requires forall k :: 0 <= k < |keys| && driver <= keys[k] ==> i <= k && (i < k ==> keys[k] != driver)
    ensures !AlwaysReadsDriver(keys, driver)
  {
    var pairs := MarkedPairs(keys, driver);
    assert KeysOf(pairs) == keys;
    ReadPrinted(pairs, driver);
    LaterExtensionIsRead(pairs, driver, j);
    ValueFound(pairs, i);
    assert IsMapWith(pairs, keys, driver);
  }

  lemma OnlyKeyIsRead(pairs: seq<Pair>, keys: seq<string>, driver: string, i: nat)
    requires driver != "" && ':' !in driver && IsMapWith(pairs, keys, driver)
    requires i < |keys| && keys[i] == driver
    requires forall k :: 0 <= k < |keys| && driver <= keys[k] ==> k == i
    ensures Parsed(Split(StripJson(Print(pairs)), ','), driver) == ValueOf(pairs, driver)
  {
    forall k | 0 <= k < |pairs| ensures driver <= pairs[k].key <==> k == i {
      assert KeysOf(pairs)[k] == keys[k];
    }
    ReadPrinted(pairs, driver);
    OneExtending(pairs, driver, i);
    SplitAbsent(pairs[i].value, ':');
    ValueFound(pairs, i);
    assert pairs[i].key == KeysOf(pairs)[i];
  }

  lemma {:induction false} OneExtending(pairs: seq<Pair>, driver: string, i: nat)
    requires i < |pairs| && forall k :: 0 <= k < |pairs| ==> (driver <= pairs[k].key <==> k == i)
    ensures LastExtending(pairs, driver) == Split(pairs[i].value, ':')[0]
  {
    if i < |pairs| - 1 {
      OneExtending(pairs[..|pairs| - 1], driver, i);
    }
  }
}

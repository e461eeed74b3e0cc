/** The exports file as the module uses it: one line per exported Service, among lines
    that others put there. The text edits of nfs/exports.go, applied to the paths that
    nfs/nfs_service.go builds from sanitised names, refine a simple table of names. */
module ServiceTable {
  import opened Text
  import opened ExportsText
  import ServiceNames

  datatype Line = Service(name: string, options: string) | Foreign(text: string)

  /** The path that is deleted, and the directory that is added, for a Service. */
  function ServicePath(root: string, name: string): string {
    root + "/" + name
  }

  function ServiceDirectory(root: string, name: string): string {
    ServicePath(root, name) + "/"
  }

  function Render(root: string, line: Line): string {
    match line
    case Service(name, options) => Entry(ServiceDirectory(root, name), options)
    case Foreign(text) => text
  }

  function RenderAll(root: string, lines: seq<Line>): seq<string> {
    seq(|lines|, i requires 0 <= i < |lines| => Render(root, lines[i]))
  }

  function FileText(root: string, lines: seq<Line>): string {
    Unlines(RenderAll(root, lines))
  }

  // --- Well-formed tables ---

  ghost predicate PathElement(name: string) {
    name != "" && forall c :: c in name ==> c != '/' && !IsSpace(c)
  }

  ghost predicate GoodRoot(root: string) {
    root != "" && forall c :: c in root ==> !IsSpace(c)
  }

  ghost predicate GoodOptions(options: string) {
    options != "" && '\n' !in options && !IsSpace(options[|options| - 1])
  }

  ghost predicate GoodLine(root: string, line: Line) {
    match line
    case Service(name, options) => PathElement(name) && GoodOptions(options)
    case Foreign(text) => CleanLine(text) && !(root + "/" <= text)
  }

  ghost predicate DistinctNames(lines: seq<Line>) {
    forall i, j :: 0 <= i < j < |lines| && lines[i].Service? && lines[j].Service? ==>
      lines[i].name != lines[j].name
  }

  ghost predicate Valid(root: string, lines: seq<Line>) {
    && GoodRoot(root)
    && (forall i :: 0 <= i < |lines| ==> GoodLine(root, lines[i]))
    && DistinctNames(lines)
  }

  // --- The simple table ---

  predicate Has(lines: seq<Line>, name: string) {
    exists i :: 0 <= i < |lines| && lines[i].Service? && lines[i].name == name
  }

  predicate Extends(line: Line, name: string) {
    line.Service? && name <= line.name
  }

  function Remove(lines: seq<Line>, name: string): seq<Line> {
    if lines == [] then []
    else
      var n := |lines| - 1;
      Remove(lines[..n], name) + if Extends(lines[n], name) then [] else [lines[n]]
  }

  /** Requests by volume ID. */
  datatype Op = Add(id: string, options: string) | Delete(id: string)

  function Step(lines: seq<Line>, op: Op): seq<Line> {
    var name := ServiceNames.VolumeIDToServiceName(op.id);
    match op
    case Add(_, options) => if Has(lines, name) then lines else lines + [Service(name, options)]
    case Delete(_) => Remove(lines, name)
  }

  function Run(lines: seq<Line>, ops: seq<Op>): seq<Line>
    decreases |ops|
  {
    if ops == [] then lines else Run(Step(lines, ops[0]), ops[1..])
  }

  ghost function TextStep(root: string, text: string, op: Op): string {
    var name := ServiceNames.VolumeIDToServiceName(op.id);
    match op
    case Add(_, options) =>
      var directory := ServiceDirectory(root, name);
      if Listed(text, directory) then text else AddText(text, directory, options)
    case Delete(_) => DeleteText(text, ServicePath(root, name))
  }

  ghost function TextRun(root: string, text: string, ops: seq<Op>): string
    decreases |ops|
  {
    if ops == [] then text else TextRun(root, TextStep(root, text, ops[0]), ops[1..])
  }

  ghost predicate GoodOp(op: Op) {
    op.id != "" && (op.Add? ==> GoodOptions(op.options))
  }

  // --- Prefixes of rendered lines ---

  lemma PrefixUnderRoot(root: string, a: string, b: string)
    ensures root + "/" + a <= root + "/" + b <==> a <= b
  {
    var p := root + "/";
    assert (p + a)[|p|..] == a && (p + b)[|p|..] == b;
    if a <= b {
      assert b == a + b[|a|..];
      assert p + b == p + a + b[|a|..];
    }
    if p + a <= p + b {
      assert (p + b)[..|p + a|][|p|..] == (p + b)[|p|..][..|a|];
    }
  }

  lemma ServiceLine(root: string, name: string, options: string)
    ensures Render(root, Service(name, options)) == root + "/" + (name + "/" + (" " + options))
  {
  }

  /** A rendered line starts with a Service's path exactly if its name extends that name,
      and with the Service's directory exactly if its name is that name. */
  lemma PrefixMeaning(root: string, name: string, line: Line)
    requires GoodRoot(root) && GoodLine(root, line) && PathElement(name)
    ensures ServicePath(root, name) <= Render(root, line) <==> Extends(line, name)
    ensures ServiceDirectory(root, name) <= Render(root, line) <==> line.Service? && line.name == name
  {
    match line
    case Service(other, options) =>
      var tail := other + "/" + (" " + options);
      ServiceLine(root, other, options);
      PrefixUnderRoot(root, name, tail);
      PrefixUnderRoot(root, name + "/", tail);
      assert ServiceDirectory(root, name) == root + "/" + (name + "/");
      PrefixBefore(name, other, '/', " " + options);
      assert tail == other + ['/'] + (" " + options) && name + "/" == name + ['/'];
    case Foreign(text) =>
      assert root + "/" <= ServicePath(root, name);
      assert ServicePath(root, name) <= ServiceDirectory(root, name);
  }

  lemma RenderedLineIsClean(root: string, line: Line)
    requires GoodRoot(root) && GoodLine(root, line)
    ensures CleanLine(Render(root, line))
  {
    if line.Service? {
      var s := Render(root, line);
      assert s == root + ("/" + line.name + "/ ") + line.options;
      assert s[0] == root[0] && root[0] in root;
      assert s[|s| - 1] == line.options[|line.options| - 1];
      assert '\n' !in root && '\n' !in "/" + line.name + "/ ";
    }
  }

  lemma FileLines(root: string, lines: seq<Line>)
    requires Valid(root, lines)
    ensures forall l :: l in RenderAll(root, lines) ==> CleanLine(l)
    ensures TrimmedLines(FileText(root, lines)) == ScanLines(FileText(root, lines)) == RenderAll(root, lines)
    ensures Canonical(FileText(root, lines))
  {
    forall i | 0 <= i < |lines| ensures CleanLine(RenderAll(root, lines)[i]) {
      RenderedLineIsClean(root, lines[i]);
    }
    ReadBack(RenderAll(root, lines));
    UnlinesCanonical(RenderAll(root, lines));
  }

  // --- Each edit refines the table ---

  lemma HasIffListed(root: string, lines: seq<Line>, name: string)
    requires Valid(root, lines) && PathElement(name)
    ensures Listed(FileText(root, lines), ServiceDirectory(root, name)) <==> Has(lines, name)
  {
    FileLines(root, lines);
    forall i | 0 <= i < |lines|
      ensures ServiceDirectory(root, name) <= RenderAll(root, lines)[i] <==> lines[i].Service? && lines[i].name == name
    {
      PrefixMeaning(root, name, lines[i]);
    }
    if Has(lines, name) {
      var i :| 0 <= i < |lines| && lines[i].Service? && lines[i].name == name;
      assert ServiceDirectory(root, name) <= TrimmedLines(FileText(root, lines))[i];
    }
  }

  lemma AddRefines(root: string, lines: seq<Line>, name: string, options: string)
    requires Valid(root, lines) && PathElement(name) && GoodOptions(options) && !Has(lines, name)
    ensures AddText(FileText(root, lines), ServiceDirectory(root, name), options)
            == FileText(root, lines + [Service(name, options)])
    ensures Valid(root, lines + [Service(name, options)])
  {
    var line := Service(name, options);
    assert RenderAll(root, lines + [line]) == RenderAll(root, lines) + [Render(root, line)];
    UnlinesAppend(RenderAll(root, lines), [Render(root, line)]);
    assert Unlines([Render(root, line)]) == Render(root, line) + "\n";
  }

  lemma {:induction false} WithoutRefines(root: string, lines: seq<Line>, name: string)
    requires Valid(root, lines) && PathElement(name)
    ensures Without(RenderAll(root, lines), ServicePath(root, name)) == RenderAll(root, Remove(lines, name))
  {
    if lines != [] {
      var n := |lines| - 1;
      WithoutRefines(root, lines[..n], name);
      PrefixMeaning(root, name, lines[n]);
      assert RenderAll(root, lines)[..n] == RenderAll(root, lines[..n]);
    }
  }

  lemma {:induction false} RemoveFacts(lines: seq<Line>, name: string)
    ensures forall l :: l in Remove(lines, name) <==> l in lines && !Extends(l, name)
    ensures DistinctNames(lines) ==> DistinctNames(Remove(lines, name))
  {
    if lines != [] {
      var n := |lines| - 1;
      RemoveFacts(lines[..n], name);
      assert lines == lines[..n] + [lines[n]];
      if DistinctNames(lines) {
        var kept := Remove(lines[..n], name);
        assert DistinctNames(kept);
        forall i | 0 <= i < |kept| && kept[i].Service? && lines[n].Service? ensures kept[i].name != lines[n].name {
          assert kept[i] in lines[..n];
        }
      }
    }
  }

  lemma RemoveKeepsValid(root: string, lines: seq<Line>, name: string)
    requires Valid(root, lines)
    ensures Valid(root, Remove(lines, name))
  {
    RemoveFacts(lines, name);
    forall i | 0 <= i < |Remove(lines, name)| ensures GoodLine(root, Remove(lines, name)[i]) {
      assert Remove(lines, name)[i] in lines;
    }
  }

  lemma DeleteRefines(root: string, lines: seq<Line>, name: string)
    requires Valid(root, lines) && PathElement(name)
    ensures DeleteText(FileText(root, lines), ServicePath(root, name)) == FileText(root, Remove(lines, name))
    ensures Valid(root, Remove(lines, name))
  {
    FileLines(root, lines);
    WithoutRefines(root, lines, name);
    RemoveKeepsValid(root, lines, name);
  }

  // --- The refinement over whole runs ---

  lemma StepRefines(root: string, lines: seq<Line>, op: Op)
    requires Valid(root, lines) && GoodOp(op)
    ensures TextStep(root, FileText(root, lines), op) == FileText(root, Step(lines, op))
    ensures Valid(root, Step(lines, op))
  {
    var name := ServiceNames.VolumeIDToServiceName(op.id);
    ServiceNames.NameShape(op.id);
    ServiceNames.NameIsPathElement(op.id);
    match op
    case Add(_, options) =>
      HasIffListed(root, lines, name);
      if !Has(lines, name) {
        AddRefines(root, lines, name, options);
      }
    case Delete(_) =>
      DeleteRefines(root, lines, name);
  }

  /** Whatever volumes are added and deleted, the file is the rendering of the table:
      lines stay trimmed and newline-terminated, names stay distinct. */
  lemma {:induction false} RunRefines(root: string, lines: seq<Line>, ops: seq<Op>)
    requires Valid(root, lines)
    requires forall i :: 0 <= i < |ops| ==> GoodOp(ops[i])
    ensures TextRun(root, FileText(root, lines), ops) == FileText(root, Run(lines, ops))
    ensures Valid(root, Run(lines, ops)) && Canonical(FileText(root, Run(lines, ops)))
    decreases |ops|
  {
    if ops == [] {
      FileLines(root, lines);
    } else {
      StepRefines(root, lines, ops[0]);
      RunRefines(root, Step(lines, ops[0]), ops[1..]);
    }
  }

  /** In a valid table no Service's directory is a prefix of another's. */
  lemma DirectoriesAreIncomparable(root: string, lines: seq<Line>, i: nat, j: nat)
    requires Valid(root, lines) && i < |lines| && j < |lines| && i != j
    requires lines[i].Service? && lines[j].Service?
    ensures !(ServiceDirectory(root, lines[i].name) <= ServiceDirectory(root, lines[j].name))
  {
    var a, b := lines[i].name, lines[j].name;
    assert a != b;
    assert ServiceDirectory(root, a) == root + "/" + (a + "/");
    assert ServiceDirectory(root, b) == root + "/" + (b + "/" + "");
    PrefixUnderRoot(root, a + "/", b + "/" + "");
    PrefixBefore(a, b, '/', "");
    assert b + "/" + "" == b + ['/'] + "" && a + "/" == a + ['/'];
  }

  // --- What a deletion takes along ---

  function RemoveOwn(lines: seq<Line>, name: string): seq<Line> {
    if lines == [] then []
    else
      var n := |lines| - 1;
      RemoveOwn(lines[..n], name) + if lines[n].Service? && lines[n].name == name then [] else [lines[n]]
  }

  lemma {:induction false} RemoveOwnFacts(lines: seq<Line>, name: string)
    ensures forall l :: l in RemoveOwn(lines, name) <==> l in lines && !(l.Service? && l.name == name)
    ensures (forall l :: l in lines && Extends(l, name) ==> l.name == name) ==>
              Remove(lines, name) == RemoveOwn(lines, name)
  {
    if lines != [] {
      var n := |lines| - 1;
      RemoveOwnFacts(lines[..n], name);
      assert lines == lines[..n] + [lines[n]];
    }
  }

  /** Deleting a Service's path removes that Service alone exactly when no other exported
      Service has a name that extends it. */
  lemma DeleteIsExactIff(lines: seq<Line>, name: string)
    ensures Remove(lines, name) == RemoveOwn(lines, name) <==>
            forall l :: l in lines && Extends(l, name) ==> l.name == name
  {
    RemoveFacts(lines, name);
    RemoveOwnFacts(lines, name);
    if l :| l in lines && Extends(l, name) && l.name != name {
      assert l in RemoveOwn(lines, name) && l !in Remove(lines, name);
    }
  }

  lemma {:induction false} RemoveAll(lines: seq<Line>, name: string)
    requires forall i :: 0 <= i < |lines| ==> Extends(lines[i], name)
    ensures Remove(lines, name) == []
  {
    if lines != [] {
      RemoveAll(lines[..|lines| - 1], name);
    }
  }

  /** Deleting volume "nfs-1" also drops the export of volume "nfs-10". */
  lemma DeleteTakesExtensionsAlong(options: string)
    ensures var one, ten := Service("nfs-1", options), Service("nfs-10", options);
            Step([one, ten], Delete("nfs-1")) == []
  {
    assert ServiceNames.Settled("nfs-1") by { assert "nfs-1"[0] in "nfs-1"; }
    ServiceNames.UnchangedIff("nfs-1");
    var lines := [Service("nfs-1", options), Service("nfs-10", options)];
    assert "nfs-1" <= "nfs-10";
    RemoveAll(lines, "nfs-1");
  }
}

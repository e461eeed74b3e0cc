/** Runs of the real edits of the exports file, with any faults and any resyncs and stored
    generations in between: the file stays a table of Services with distinct names. */
module EditRuns {
  import opened Text
  import opened ExportsText
  import opened ExportTable
  import opened ServiceTable
  import ResyncProtocol
  import ServiceNames

  /** A request by volume ID with the fault that its edit meets, or a step that leaves the
      file alone. */
  datatype Request = Edit(op: Op, fault: Fault) | Other(step: ResyncProtocol.Step)

  ghost predicate GoodRequest(q: Request) {
    match q
    case Edit(op, _) => GoodOp(op)
    case Other(step) => step.Resync? || step.WriteBack?
  }

  /** The step that the request makes on the file. */
  function StepOf(root: string, q: Request): ResyncProtocol.Step {
    match q
    case Other(step) => step
    case Edit(op, fault) =>
      var name := ServiceNames.VolumeIDToServiceName(op.id);
      if op.Add? then ResyncProtocol.Add(ServiceDirectory(root, name), op.options, fault)
      else ResyncProtocol.Delete(ServicePath(root, name), fault)
  }

  function StepsOf(root: string, requests: seq<Request>): seq<ResyncProtocol.Step> {
    if requests == [] then [] else [StepOf(root, requests[0])] + StepsOf(root, requests[1..])
  }

  /** What the request does to the table of Services: a refused one nothing, a torn rewrite
      keeps the first of the lines that it should have kept. */
  function Served(lines: seq<Line>, q: Request): seq<Line> {
    match q
    case Other(_) => lines
    case Edit(op, fault) =>
      var after := Step(lines, op);
      if op.Add? then (if fault.NoFault? then after else lines)
      else match fault
        case NoFault => after
        case OpenFails => lines
        case WriteFails(n) => if n < |after| then after[..n] else after
  }

  function ServedAll(lines: seq<Line>, requests: seq<Request>): seq<Line>
    decreases |requests|
  {
    if requests == [] then lines else ServedAll(Served(lines, requests[0]), requests[1..])
  }

  lemma FirstLinesAreValid(root: string, lines: seq<Line>, n: nat)
    requires Valid(root, lines) && n <= |lines|
    ensures Valid(root, lines[..n]) && FileText(root, lines[..n]) == Unlines(RenderAll(root, lines)[..n])
  {
    assert RenderAll(root, lines[..n]) == RenderAll(root, lines)[..n];
  }

  lemma DeleteServed(root: string, lines: seq<Line>, t: Table, id: string, fault: Fault)
    requires Valid(root, lines) && t.text == FileText(root, lines) && id != ""
    ensures var q := Edit(Op.Delete(id), fault);
            && ResyncProtocol.Next(t, StepOf(root, q)).text == FileText(root, Served(lines, q))
            && Valid(root, Served(lines, q))
  {
    var name := ServiceNames.VolumeIDToServiceName(id);
    ServiceNames.NameShape(id);
    ServiceNames.NameIsPathElement(id);
    DeleteByName(root, lines, t, name, fault);
  }

  lemma DeleteByName(root: string, lines: seq<Line>, t: Table, name: string, fault: Fault)
    requires Valid(root, lines) && t.text == FileText(root, lines) && PathElement(name)
    ensures var kept := Remove(lines, name);
            var after := if fault.OpenFails? then lines
                         else if fault.WriteFails? && fault.after < |kept| then kept[..fault.after] else kept;
            Deleted(t, ServicePath(root, name), fault).0.text == FileText(root, after) && Valid(root, after)
  {
    FileLines(root, lines);
    WithoutRefines(root, lines, name);
    RemoveKeepsValid(root, lines, name);
    var kept := Remove(lines, name);
    if fault.WriteFails? && fault.after < |kept| {
      FirstLinesAreValid(root, kept, fault.after);
    }
  }

  lemma AddServed(root: string, lines: seq<Line>, t: Table, id: string, options: string, fault: Fault)
    requires Valid(root, lines) && t.text == FileText(root, lines) && id != "" && GoodOptions(options)
    ensures var q := Edit(Op.Add(id, options), fault);
            && ResyncProtocol.Next(t, StepOf(root, q)).text == FileText(root, Served(lines, q))
            && Valid(root, Served(lines, q))
  {
    var name := ServiceNames.VolumeIDToServiceName(id);
    ServiceNames.NameShape(id);
    ServiceNames.NameIsPathElement(id);
    HasIffListed(root, lines, name);
    AddAcceptedIff(t, ServiceDirectory(root, name), options, fault);
    if !Has(lines, name) {
      AddRefines(root, lines, name, options);
    }
  }

  lemma RequestServed(root: string, lines: seq<Line>, t: Table, q: Request)
    requires Valid(root, lines) && t.text == FileText(root, lines) && GoodRequest(q)
    ensures ResyncProtocol.Next(t, StepOf(root, q)).text == FileText(root, Served(lines, q))
    ensures Valid(root, Served(lines, q))
  {
    match q
    case Other(_) =>
    case Edit(Add(id, options), fault) => AddServed(root, lines, t, id, options, fault);
    case Edit(Delete(id), fault) => DeleteServed(root, lines, t, id, fault);
  }

  /** Over any run of the real edits, with any faults and with any resyncs and stored
      generations in between, the file is the rendering of a table of Services with
      distinct names: no entry is there twice, also after a torn rewrite. */
  lemma {:induction false} EditsKeepTable(root: string, lines: seq<Line>, t: Table, requests: seq<Request>)
    requires Valid(root, lines) && t.text == FileText(root, lines)
    requires forall i :: 0 <= i < |requests| ==> GoodRequest(requests[i])
    ensures ResyncProtocol.Run(t, StepsOf(root, requests)).text == FileText(root, ServedAll(lines, requests))
    ensures Valid(root, ServedAll(lines, requests)) && DistinctNames(ServedAll(lines, requests))
    decreases |requests|
  {
    if requests != [] {
      RequestServed(root, lines, t, requests[0]);
      var step := StepOf(root, requests[0]);
      var rest := StepsOf(root, requests[1..]);
      EditsKeepTable(root, Served(lines, requests[0]), ResyncProtocol.Next(t, step), requests[1..]);
      assert ([step] + rest)[1..] == rest;
    }
  }

  /** A volume's entry is added exactly if nothing failed and the volume has none; deleting
      is refused only for a fault. */
  lemma RequestAcceptedIff(root: string, lines: seq<Line>, t: Table, id: string, options: string, fault: Fault)
    requires Valid(root, lines) && t.text == FileText(root, lines) && id != ""
    ensures var name := ServiceNames.VolumeIDToServiceName(id);
            && (Added(t, ServiceDirectory(root, name), options, fault).1.ok <==>
                fault.NoFault? && forall i :: 0 <= i < |lines| && lines[i].Service? ==> lines[i].name != name)
            && (Deleted(t, ServicePath(root, name), fault).1.ok <==>
                fault.NoFault? || (fault.WriteFails? && fault.after >= |Remove(lines, name)|))
  {
    var name := ServiceNames.VolumeIDToServiceName(id);
    ServiceNames.NameShape(id);
    ServiceNames.NameIsPathElement(id);
    HasIffListed(root, lines, name);
    AddAcceptedIff(t, ServiceDirectory(root, name), options, fault);
    FileLines(root, lines);
    WithoutRefines(root, lines, name);
  }
}

/** Publishing, unpublishing and reassigning one shared volume (nfs/controller.go,
    nfs/noderecovery.go): the Service whose labels name the clients, the endpoint slice
    that points at the server, the array's attachments and the nodes' exports. */
module VolumeControl {
  import opened Wrappers

  const CLIENT := "client/"

  /** A node by its CSI ID and its first address. */
  datatype Node = Node(id: string, ip: string)

  datatype Service = Service(labels: map<string, string>)

  /** The labels nodeID and nodeIP, and the address of the endpoint. */
  datatype Slice = Slice(nodeID: string, nodeIP: string, address: string)

  /** `attached` holds the IDs of the nodes the array volume is attached to, `exported` the
      addresses of the nodes that export it. */
  datatype Cluster = Cluster(service: Option<Service>, slice: Option<Slice>, attached: set<string>, exported: set<string>)

  const EMPTY := Cluster(None, None, {}, {})

  // The external call that fails. A failed call changes nothing, except an unexport, which
  // may have been done (`done`) although its answer was lost. If the error text of a failed
  // read says "not found" (`notFound`), an unpublish takes the objects to be missing.

  datatype PublishFault =
    | NoFault | NodeLookupFails | ReadFails | AttachFails | ExportFails
    | CreateSliceFails | CreateServiceFails | UpdateServiceFails

  datatype UnpublishFault =
    | NoFault | ReadFails(notFound: bool) | UpdateServiceFails | UnexportFails(done: bool) | ServerUnreachable(done: bool)
    | DeleteSliceFails | DeleteServiceFails | DetachFails

  datatype ReassignFault =
    | NoFault | LookupFails | DetachFails | TargetFails | AttachFails | ExportFails | UpdateSliceFails

  // --- The client labels ---

  ghost predicate IsClient(service: Service, nodeId: string) {
    CLIENT + nodeId in service.labels
  }

  ghost function Clients(c: Cluster): set<string> {
    if c.service.None? then {}
    else set k | k in c.service.value.labels && CLIENT <= k :: k[|CLIENT|..]
  }

  lemma ClientsMeaning(c: Cluster, nodeId: string)
    ensures nodeId in Clients(c) <==> c.service.Some? && IsClient(c.service.value, nodeId)
  {
    if c.service.Some? {
      assert (CLIENT + nodeId)[|CLIENT|..] == nodeId;
      if nodeId in Clients(c) {
        var k :| k in c.service.value.labels && CLIENT <= k && k[|CLIENT|..] == nodeId;
        assert k == CLIENT + nodeId;
      }
    }
  }

  function ClientKeys(labels: map<string, string>): set<string> {
    set k | k in labels && CLIENT <= k
  }

  function NewLabels(node: Node, pvName: string): map<string, string> {
    map["NodeId" := node.id][CLIENT + node.id := node.id]["NodeIp" := node.ip]["pvName" := pvName]
  }

  predicate Labelled(service: Service, nodeId: string) {
    var key := CLIENT + nodeId;
    key in service.labels && service.labels[key] != ""
  }

  function WithClient(service: Service, nodeId: string): Service {
    if Labelled(service, nodeId) then service
    else Service(service.labels[CLIENT + nodeId := nodeId])
  }

  function WithoutClient(service: Service, nodeId: string): Service {
    Service(service.labels - {CLIENT + nodeId})
  }

  // --- What each operation does ---

  /** `admitted` is the outcome of the node status check, made for the first client only. */
  function Published(c: Cluster, node: Node, pvName: string, admitted: bool, fault: PublishFault): (Cluster, bool) {
    if fault.NodeLookupFails? then
      (c, false)
    else if fault.ReadFails? || c.service.None? || c.slice.None? then
      if admitted then Made(c, node, pvName, fault) else (c, false)
    else
      if !Labelled(c.service.value, node.id) && fault.UpdateServiceFails? then (c, false)
      else (c.(service := Some(WithClient(c.service.value, node.id))), true)
  }

  function Made(c: Cluster, node: Node, pvName: string, fault: PublishFault): (Cluster, bool) {
    var attached := c.(attached := c.attached + {node.id});
    var exported := attached.(exported := c.exported + {node.ip});
    var sliced := exported.(slice := Some(Slice(node.id, node.ip, node.ip)));
    if fault.AttachFails? then (c, false)
    else if fault.ExportFails? then (attached, false)
    else if fault.CreateSliceFails? || c.slice.Some? then (exported, false)
    else if fault.CreateServiceFails? || c.service.Some? then (sliced, false)
    else (sliced.(service := Some(Service(NewLabels(node, pvName)))), true)
  }

  function Unpublished(c: Cluster, nodeId: string, fault: UnpublishFault): (Cluster, bool) {
    if fault.ReadFails? then (c, fault.notFound)
    else if c.service.None? || c.slice.None? then (c, true)
    else UnpublishedFrom(c, c.service.value, c.slice.value, nodeId, fault)
  }

  /** The rest of an unpublish, from the Service and slice that it has read. */
  function UnpublishedFrom(c: Cluster, service: Service, slice: Slice, nodeId: string, fault: UnpublishFault): (Cluster, bool) {
    var left := WithoutClient(service, nodeId);
    if slice.address == "" || fault.UpdateServiceFails? then (c, false)
    else
      var updated := c.(service := Some(left));
      if ClientKeys(left.labels) != {} then (updated, true)
      else TornDown(updated, slice, fault)
  }

  function TornDown(c: Cluster, slice: Slice, fault: UnpublishFault): (Cluster, bool) {
    var skipped := (fault.UnexportFails? || fault.ServerUnreachable?) && !fault.done;
    var unexported := if skipped then c else c.(exported := c.exported - {slice.address});
    if fault.UnexportFails? then (unexported, false)
    else if fault.DeleteSliceFails? then (unexported, false)
    else if fault.DeleteServiceFails? then (unexported.(slice := None), false)
    else if fault.DetachFails? then (unexported.(slice := None, service := None), false)
    else (unexported.(slice := None, service := None, attached := c.attached - {slice.nodeID}), true)
  }

  /** One attempt to move the volume to `target`, from the slice that the recovery listed.
      `oldUnexported` tells whether the unexport sent to the old server was done. */
  function Reassigned(c: Cluster, read: Slice, target: Node, oldUnexported: bool, fault: ReassignFault): (Cluster, bool) {
    if fault.LookupFails? || c.service.None? then (c, false)
    else
      var started := if oldUnexported then c.(exported := c.exported - {read.nodeIP}) else c;
      var detached := started.(attached := c.attached - {read.nodeID});
      var attached := detached.(attached := detached.attached + {target.id});
      var exported := attached.(exported := attached.exported + {target.ip});
      if fault.DetachFails? then (started, false)
      else if fault.TargetFails? || fault.AttachFails? then (detached, false)
      else if fault.ExportFails? then (attached, false)
      else if fault.UpdateSliceFails? || c.slice.None? then (exported, true)
      else (exported.(slice := Some(Slice(target.id, target.ip, target.ip))), true)
  }

  datatype Attempt = Attempt(target: Node, oldUnexported: bool, fault: ReassignFault)

  /** A failed reassignment is tried once more. */
  function Recovered(c: Cluster, read: Slice, first: Attempt, second: Attempt): (Cluster, bool) {
    var (c', ok) := Reassigned(c, read, first.target, first.oldUnexported, first.fault);
    if ok then (c', true) else Reassigned(c', read, second.target, second.oldUnexported, second.fault)
  }

  class Controller {
    var service: Option<Service>
    var slice: Option<Slice>
    var attached: set<string>
    var exported: set<string>

    ghost function View(): Cluster
      reads this
    {
      Cluster(service, slice, attached, exported)
    }

    constructor ()
      ensures View() == EMPTY
    {
      service, slice, attached, exported := None, None, {}, {};
    }

    /** Both objects, or neither if one is missing or cannot be read. */
    method GetServiceAndSlice(readFails: bool) returns (found: Option<(Service, Slice)>)
      ensures found == if readFails || service.None? || slice.None? then None else Some((service.value, slice.value))
    {
      if readFails || slice.None? {
        return None;
      }
      if service.None? {
        return None;
      }
      return Some((service.value, slice.value));
    }

    method ControllerPublishVolume(node: Node, pvName: string, admitted: bool, fault: PublishFault) returns (ok: bool)
      modifies this
      ensures (View(), ok) == Published(old(View()), node, pvName, admitted, fault)
    {
      if fault.NodeLookupFails? {
        return false;
      }
      var found := GetServiceAndSlice(fault.ReadFails?);
      if found.None? {
        if !admitted {
          return false;
        }
        ok := MakeNfsService(node, pvName, fault);
      } else {
        ok := AddNodeToNfsService(found.value.0, node.id, fault);
      }
    }

    method MakeNfsService(node: Node, pvName: string, fault: PublishFault) returns (ok: bool)
      modifies this
      ensures (View(), ok) == Made(old(View()), node, pvName, fault)
    {
      if fault.AttachFails? {
        return false;
      }
      attached := attached + {node.id};
      if fault.ExportFails? {
        return false;
      }
      exported := exported + {node.ip};
      if fault.CreateSliceFails? || slice.Some? {
        return false;
      }
      slice := Some(Slice(node.id, node.ip, node.ip));
      if fault.CreateServiceFails? || service.Some? {
        return false;
      }
      service := Some(Service(map["NodeId" := node.id][CLIENT + node.id := node.id]["NodeIp" := node.ip]["pvName" := pvName]));
      return true;
    }

    method AddNodeToNfsService(read: Service, nodeId: string, fault: PublishFault) returns (ok: bool)
      requires service == Some(read)
      modifies this`service
      ensures ok == (Labelled(read, nodeId) || !fault.UpdateServiceFails?)
      ensures service == if ok then Some(WithClient(read, nodeId)) else old(service)
    {
      var key := CLIENT + nodeId;
      var labels := read.labels;
      if key !in labels || labels[key] == "" {
        labels := labels[key := nodeId];
        if fault.UpdateServiceFails? {
          return false;
        }
        service := Some(Service(labels));
      }
      return true;
    }

    method CountClients(labels: map<string, string>) returns (nclients: nat)
      ensures nclients == |ClientKeys(labels)|
    {
      nclients := 0;
      var rest := labels.Keys;
      while rest != {}
        invariant rest <= labels.Keys
        invariant nclients == |ClientKeys(labels) - rest|
        decreases rest
      {
        var k :| k in rest;
        CountOne(ClientKeys(labels), rest, k);
        if CLIENT <= k {
          nclients := nclients + 1;
        }
        rest := rest - {k};
      }
      assert ClientKeys(labels) - {} == ClientKeys(labels);
    }

    /** Reports whether the removed client was the last one. */
    method RemoveNodeFromNfsService(read: Service, nodeId: string, fault: UnpublishFault) returns (last: bool, ok: bool)
      modifies this`service
      ensures var without := WithoutClient(read, nodeId);
              && last == (ClientKeys(without.labels) == {})
              && ok == !fault.UpdateServiceFails?
              && service == if ok then Some(without) else old(service)
    {
      var labels := read.labels - {CLIENT + nodeId};
      var nclients := CountClients(labels);
      last := nclients == 0;
      ok := !fault.UpdateServiceFails?;
      if ok {
        service := Some(Service(labels));
      }
    }

    method ControllerUnpublishVolume(nodeId: string, fault: UnpublishFault) returns (ok: bool)
      modifies this
      ensures (View(), ok) == Unpublished(old(View()), nodeId, fault)
    {
      var found := GetServiceAndSlice(fault.ReadFails?);
      if found.None? {
        return !fault.ReadFails? || fault.notFound;
      }
      var (read, at) := found.value;
      if at.address == "" {
        return false;
      }
      var last, updated := RemoveNodeFromNfsService(read, nodeId, fault);
      if !updated {
        return false;
      }
      if !last {
        return true;
      }
      if !((fault.UnexportFails? || fault.ServerUnreachable?) && !fault.done) {
        exported := exported - {at.address};
      }
      if fault.UnexportFails? {
        return false;
      }
      if fault.DeleteSliceFails? {
        return false;
      }
      slice := None;
      if fault.DeleteServiceFails? {
        return false;
      }
      service := None;
      if fault.DetachFails? {
        return false;
      }
      attached := attached - {at.nodeID};
      return true;
    }

    method UpdateEndpointSlice(target: Node, fault: ReassignFault) returns (ok: bool)
      modifies this`slice
      ensures ok == (!fault.UpdateSliceFails? && old(slice).Some?)
      ensures slice == if ok then Some(Slice(target.id, target.ip, target.ip)) else old(slice)
    {
      var retries := 0;
      while retries < 3
        invariant 0 <= retries <= 3
        invariant slice == old(slice)
        invariant retries > 0 ==> fault.UpdateSliceFails? || slice.None?
      {
        if !fault.UpdateSliceFails? && slice.Some? {
          slice := Some(Slice(target.id, target.ip, target.ip));
          return true;
        }
        retries := retries + 1;
      }
      return false;
    }

    method ReassignVolume(read: Slice, target: Node, oldUnexported: bool, fault: ReassignFault) returns (ok: bool)
      modifies this
      ensures (View(), ok) == Reassigned(old(View()), read, target, oldUnexported, fault)
    {
      if fault.LookupFails? || service.None? {
        return false;
      }
      if oldUnexported {
        exported := exported - {read.nodeIP};
      }
      if fault.DetachFails? {
        return false;
      }
      attached := attached - {read.nodeID};
      if fault.TargetFails? || fault.AttachFails? {
        return false;
      }
      attached := attached + {target.id};
      if fault.ExportFails? {
        return false;
      }
      exported := exported + {target.ip};
      var updated := UpdateEndpointSlice(target, fault);
      return true;
    }

    /** What a node recovery does for one of the failed node's slices. */
    method RecoverVolume(read: Slice, first: Attempt, second: Attempt) returns (ok: bool)
      modifies this
      ensures (View(), ok) == Recovered(old(View()), read, first, second)
    {
      ok := ReassignVolume(read, first.target, first.oldUnexported, first.fault);
      if !ok {
        ok := ReassignVolume(read, second.target, second.oldUnexported, second.fault);
      }
    }
  }

  lemma CountOne(keys: set<string>, rest: set<string>, k: string)
    requires k in rest
    ensures |keys - (rest - {k})| == |keys - rest| + if k in keys then 1 else 0
  {
    if k in keys {
      assert keys - (rest - {k}) == (keys - rest) + {k};
    } else {
      assert keys - (rest - {k}) == keys - rest;
    }
  }

  // --- The state between calls ---

  /** The array volume is attached to the node that the slice names, and to no other. */
  ghost predicate SingleAttachment(c: Cluster) {
    c.attached == if c.slice.Some? then {c.slice.value.nodeID} else {}
  }

  ghost predicate Consistent(c: Cluster) {
    && SingleAttachment(c)
    && (c.service.Some? <==> c.slice.Some?)
    && (c.service.Some? <==> Clients(c) != {})
    && (c.slice.Some? ==>
          && c.slice.value.address != "" && c.slice.value.address == c.slice.value.nodeIP
          && c.slice.value.address in c.exported)
  }

  // --- Fault-free runs ---

  datatype Call =
    | Publish(node: Node, pvName: string, admitted: bool)
    | Unpublish(nodeId: string)
    | Reassign(target: Node, oldUnexported: bool)

  /** A recovery reassigns the slices it finds. */
  function Apply(c: Cluster, call: Call): (Cluster, bool) {
    match call
    case Publish(node, pvName, admitted) => Published(c, node, pvName, admitted, PublishFault.NoFault)
    case Unpublish(nodeId) => Unpublished(c, nodeId, UnpublishFault.NoFault)
    case Reassign(target, oldUnexported) =>
      if c.slice.None? then (c, true)
      else Reassigned(c, c.slice.value, target, oldUnexported, ReassignFault.NoFault)
  }

  function Run(calls: seq<Call>): Cluster {
    if calls == [] then EMPTY
    else Apply(Run(calls[..|calls| - 1]), calls[|calls| - 1]).0
  }

  ghost predicate HasAddress(call: Call) {
    (call.Publish? ==> call.node.ip != "") && (call.Reassign? ==> call.target.ip != "")
  }

  /** Call i was accepted when its turn came. */
  ghost predicate Accepted(calls: seq<Call>, i: nat)
    requires i < |calls|
  {
    Apply(Run(calls[..i]), calls[i]).1
  }

  /** The node's latest accepted call was a publish. */
  ghost predicate LatestIsPublish(calls: seq<Call>, nodeId: string) {
    exists i :: 0 <= i < |calls| && PublishesFor(calls, i, nodeId)
                && forall j :: i < j < |calls| ==> !UnpublishesFor(calls, j, nodeId)
  }

  ghost predicate PublishesFor(calls: seq<Call>, i: nat, nodeId: string)
    requires i < |calls|
  {
    calls[i].Publish? && calls[i].node.id == nodeId && Accepted(calls, i)
  }

  ghost predicate UnpublishesFor(calls: seq<Call>, i: nat, nodeId: string)
    requires i < |calls|
  {
    calls[i].Unpublish? && calls[i].nodeId == nodeId && Accepted(calls, i)
  }

  lemma WithClientMeaning(service: Service, nodeId: string, other: string)
    ensures IsClient(WithClient(service, nodeId), other) <==> IsClient(service, other) || other == nodeId
  {
    assert (CLIENT + other)[|CLIENT|..] == other && (CLIENT + nodeId)[|CLIENT|..] == nodeId;
  }

  lemma WithoutClientMeaning(service: Service, nodeId: string, other: string)
    ensures IsClient(WithoutClient(service, nodeId), other) <==> IsClient(service, other) && other != nodeId
  {
    assert (CLIENT + other)[|CLIENT|..] == other && (CLIENT + nodeId)[|CLIENT|..] == nodeId;
  }

  lemma NewLabelsMeaning(node: Node, pvName: string, other: string)
    ensures IsClient(Service(NewLabels(node, pvName)), other) <==> other == node.id
  {
    assert (CLIENT + other)[|CLIENT|..] == other && (CLIENT + node.id)[|CLIENT|..] == node.id;
    assert (CLIENT + other)[0] == 'c' && "NodeId"[0] == 'N' == "NodeIp"[0] && "pvName"[0] == 'p';
  }

  lemma NoClientKeysIff(service: Service, c: Cluster)
    requires c.service == Some(service)
    ensures ClientKeys(service.labels) == {} <==> Clients(c) == {}
  {
    if k :| k in ClientKeys(service.labels) {
      assert k[|CLIENT|..] in Clients(c);
    }
    if n :| n in Clients(c) {
      ClientsMeaning(c, n);
      assert CLIENT + n in ClientKeys(service.labels);
    }
  }

  /** The clients after one fault-free call on a consistent state. */
  lemma ApplyClients(c: Cluster, call: Call, nodeId: string)
    requires Consistent(c)
    ensures nodeId in Clients(Apply(c, call).0) <==>
            || (nodeId in Clients(c) && call != Unpublish(nodeId))
            || (call.Publish? && call.node.id == nodeId && Apply(c, call).1)
  {
    var d := Apply(c, call).0;
    ClientsMeaning(c, nodeId);
    ClientsMeaning(d, nodeId);
    match call
    case Publish(node, pvName, admitted) =>
      if c.service.Some? {
        WithClientMeaning(c.service.value, node.id, nodeId);
      } else {
        NewLabelsMeaning(node, pvName, nodeId);
      }
    case Unpublish(removed) =>
      if c.service.Some? {
        var left := WithoutClient(c.service.value, removed);
        WithoutClientMeaning(c.service.value, removed, nodeId);
        var updated := c.(service := Some(left));
        NoClientKeysIff(left, updated);
        ClientsMeaning(updated, nodeId);
      }
    case Reassign(_, _) =>
  }

  lemma ApplyKeepsConsistency(c: Cluster, call: Call)
    requires Consistent(c) && HasAddress(call)
    ensures Consistent(Apply(c, call).0)
    ensures call.Unpublish? ==> Apply(c, call).1
  {
    var d := Apply(c, call).0;
    match call
    case Publish(node, pvName, admitted) =>
      ApplyClients(c, call, node.id);
    case Unpublish(removed) =>
      if c.service.Some? {
        var left := WithoutClient(c.service.value, removed);
        NoClientKeysIff(left, c.(service := Some(left)));
      }
    case Reassign(_, _) =>
      assert Clients(d) == Clients(c);
  }

  /** Over every fault-free run of publishes, unpublishes and reassignments: the Service
      and the slice exist exactly while there are clients, the array volume is attached to
      the slice's node and no other, which exports it; and the clients are the nodes whose
      latest accepted call was a publish. */
  lemma {:induction false} RunIsConsistent(calls: seq<Call>, nodeId: string)
    requires forall i :: 0 <= i < |calls| ==> HasAddress(calls[i])
    ensures Consistent(Run(calls))
    ensures nodeId in Clients(Run(calls)) <==> LatestIsPublish(calls, nodeId)
  {
    if calls != [] {
      var n := |calls| - 1;
      var front := calls[..n];
      RunIsConsistent(front, nodeId);
      ApplyKeepsConsistency(Run(front), calls[n]);
      ApplyClients(Run(front), calls[n], nodeId);
      LatestAppend(calls, nodeId);
    }
  }

  /** The unexport that a reassignment sends to the old server was done. */
  predicate LeavesNoExport(call: Call) {
    call.Reassign? ==> call.oldUnexported
  }

  ghost predicate ExportsExactly(c: Cluster) {
    c.exported == if c.slice.Some? then {c.slice.value.address} else {}
  }

  lemma ApplyExports(c: Cluster, call: Call)
    requires Consistent(c) && ExportsExactly(c) && HasAddress(call) && LeavesNoExport(call)
    ensures ExportsExactly(Apply(c, call).0)
  {
    var d := Apply(c, call).0;
    match call
    case Publish(node, _, admitted) =>
      if c.slice.None? && admitted {
        assert d.exported == {} + {node.ip};
      }
    case Unpublish(removed) =>
      if c.slice.Some? && d.slice.None? {
        assert d.exported == c.exported - {c.slice.value.address};
      }
    case Reassign(target, _) =>
      if c.slice.Some? {
        assert d.exported == c.exported - {c.slice.value.nodeIP} + {target.ip};
      }
  }

  /** If no unexport of an old server was lost, no node but the server exports the volume. */
  lemma {:induction false} NoExportLeaks(calls: seq<Call>)
    requires forall i :: 0 <= i < |calls| ==> HasAddress(calls[i]) && LeavesNoExport(calls[i])
    ensures ExportsExactly(Run(calls))
  {
    if calls != [] {
      var n := |calls| - 1;
      NoExportLeaks(calls[..n]);
      RunIsConsistent(calls[..n], "");
      ApplyExports(Run(calls[..n]), calls[n]);
    }
  }

  lemma FrontAgrees(calls: seq<Call>, i: nat, nodeId: string)
    requires i < |calls| - 1
    ensures PublishesFor(calls, i, nodeId) <==> PublishesFor(calls[..|calls| - 1], i, nodeId)
    ensures UnpublishesFor(calls, i, nodeId) <==> UnpublishesFor(calls[..|calls| - 1], i, nodeId)
  {
    assert calls[..|calls| - 1][..i] == calls[..i];
  }

  lemma LatestFromFront(calls: seq<Call>, nodeId: string)
    requires calls != [] && LatestIsPublish(calls[..|calls| - 1], nodeId)
    requires !UnpublishesFor(calls, |calls| - 1, nodeId)
    ensures LatestIsPublish(calls, nodeId)
  {
    var front := calls[..|calls| - 1];
    var i :| 0 <= i < |front| && PublishesFor(front, i, nodeId)
             && forall j :: i < j < |front| ==> !UnpublishesFor(front, j, nodeId);
    FrontAgrees(calls, i, nodeId);
    forall j | i < j < |calls| ensures !UnpublishesFor(calls, j, nodeId) {
      if j < |calls| - 1 {
        FrontAgrees(calls, j, nodeId);
      }
    }
  }

  lemma LatestToFront(calls: seq<Call>, nodeId: string)
    requires calls != [] && LatestIsPublish(calls, nodeId)
    requires !PublishesFor(calls, |calls| - 1, nodeId)
    ensures LatestIsPublish(calls[..|calls| - 1], nodeId) && !UnpublishesFor(calls, |calls| - 1, nodeId)
  {
    var front := calls[..|calls| - 1];
    var i :| 0 <= i < |calls| && PublishesFor(calls, i, nodeId)
             && forall j :: i < j < |calls| ==> !UnpublishesFor(calls, j, nodeId);
    FrontAgrees(calls, i, nodeId);
    forall j | i < j < |front| ensures !UnpublishesFor(front, j, nodeId) {
      FrontAgrees(calls, j, nodeId);
    }
  }

  lemma LatestAppend(calls: seq<Call>, nodeId: string)
    requires calls != []
    ensures var n := |calls| - 1;
            LatestIsPublish(calls, nodeId) <==>
            || PublishesFor(calls, n, nodeId)
            || (LatestIsPublish(calls[..n], nodeId) && !UnpublishesFor(calls, n, nodeId))
  {
    var n := |calls| - 1;
    if LatestIsPublish(calls[..n], nodeId) && !UnpublishesFor(calls, n, nodeId) {
      LatestFromFront(calls, nodeId);
    }
    if LatestIsPublish(calls, nodeId) && !PublishesFor(calls, n, nodeId) {
      LatestToFront(calls, nodeId);
    }
  }

  /** The last client's unpublish removes everything, from the server the volume is on now,
      even if it was moved there by a recovery and the last client is another node. */
  lemma LastUnpublishTearsDown(c: Cluster, nodeId: string)
    requires Consistent(c) && Clients(c) == {nodeId}
    ensures Unpublished(c, nodeId, UnpublishFault.NoFault)
            == (Cluster(None, None, {}, c.exported - {c.slice.value.address}), true)
  {
    LastClient(c, nodeId);
    assert c.attached - {c.slice.value.nodeID} == {};
  }

  lemma LastClient(c: Cluster, nodeId: string)
    requires c.service.Some? && Clients(c) <= {nodeId}
    ensures ClientKeys(WithoutClient(c.service.value, nodeId).labels) == {}
  {
    var left := WithoutClient(c.service.value, nodeId);
    var updated := c.(service := Some(left));
    forall other ensures other !in Clients(updated) {
      ClientsMeaning(updated, other);
      ClientsMeaning(c, other);
      WithoutClientMeaning(c.service.value, nodeId, other);
    }
    NoClientKeysIff(left, updated);
  }

  /** Repeating an accepted call changes nothing, as the CSI specification requires. */
  lemma CallsAreIdempotent(c: Cluster, call: Call)
    requires Consistent(c) && HasAddress(call) && !call.Reassign? && Apply(c, call).1
    ensures Apply(Apply(c, call).0, call) == Apply(c, call)
  {
    var d := Apply(c, call).0;
    match call
    case Publish(node, pvName, admitted) =>
      NewLabelsValue(node, pvName);
      var labels := d.service.value.labels;
      assert labels[CLIENT + node.id] == "" ==> labels[CLIENT + node.id := node.id] == labels;
    case Unpublish(nodeId) =>
      if d.service.Some? {
        ApplyClients(c, call, nodeId);
        ClientsMeaning(d, nodeId);
        assert d.service.value.labels - {CLIENT + nodeId} == d.service.value.labels;
      }
  }

  lemma NewLabelsValue(node: Node, pvName: string)
    ensures CLIENT + node.id in NewLabels(node, pvName) && NewLabels(node, pvName)[CLIENT + node.id] == node.id
  {
    assert (CLIENT + node.id)[0] == 'c' && "NodeIp"[0] == 'N' && "pvName"[0] == 'p';
  }
}

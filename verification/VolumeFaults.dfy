/** What faults do to the state of one shared volume: which attempts a retry makes up for,
    and what is left behind by those it does not (nfs/controller.go, nfs/noderecovery.go). */
module VolumeFaults {
  import opened Wrappers
  import opened VolumeControl

  // --- What a caller is told, and what that means ---

  /** The last client's unpublish succeeds exactly if nothing failed but the connection to a
      server that may be down, or if the read failed with a text that says "not found". But
      for the latter, a success means that nothing is left of the volume. */
  lemma LastUnpublishAcceptedIff(c: Cluster, nodeId: string, fault: UnpublishFault)
    requires Consistent(c) && Clients(c) == {nodeId}
    ensures var (d, ok) := Unpublished(c, nodeId, fault);
            && (ok <==> fault.NoFault? || fault.ServerUnreachable? || fault == UnpublishFault.ReadFails(true))
            && (ok && !fault.ReadFails? ==> d.service.None? && d.slice.None? && d.attached == {})
            && (fault.ReadFails? || fault.UpdateServiceFails? ==> d == c)
  {
    LastClient(c, nodeId);
    assert c.attached - {c.slice.value.nodeID} == {};
  }

  /** An unpublish that leaves clients touches nothing but the label, and succeeds exactly
      if the label could be updated, or the read failed with such a text. */
  lemma OtherUnpublishAcceptedIff(c: Cluster, nodeId: string, fault: UnpublishFault)
    requires Consistent(c) && c.service.Some? && !(Clients(c) <= {nodeId})
    ensures var (d, ok) := Unpublished(c, nodeId, fault);
            && (ok <==> fault != UnpublishFault.ReadFails(false) && !fault.UpdateServiceFails?)
            && d.slice == c.slice && d.attached == c.attached && d.exported == c.exported
            && (forall n :: n in Clients(d) <==> n in Clients(c) && (n != nodeId || fault.ReadFails? || fault.UpdateServiceFails?))
  {
    var left := WithoutClient(c.service.value, nodeId);
    var updated := c.(service := Some(left));
    forall n ensures n in Clients(updated) <==> n in Clients(c) && n != nodeId {
      ClientsMeaning(c, n);
      ClientsMeaning(updated, n);
      WithoutClientMeaning(c.service.value, nodeId, n);
    }
    NoClientKeysIff(left, updated);
    var other :| other in Clients(c) && other != nodeId;
    assert other in Clients(updated);
  }

  /** With nothing to unpublish, it succeeds exactly unless the read failed otherwise. */
  lemma EmptyUnpublishAcceptedIff(c: Cluster, nodeId: string, fault: UnpublishFault)
    requires c.service.None? || c.slice.None?
    ensures Unpublished(c, nodeId, fault) == (c, fault != UnpublishFault.ReadFails(false))
  {
  }

  /** With a slice that has no address, nothing is done. */
  lemma UnaddressedUnpublishFails(c: Cluster, nodeId: string, fault: UnpublishFault)
    requires c.service.Some? && c.slice.Some? && c.slice.value.address == ""
    ensures Unpublished(c, nodeId, fault) == (c, fault == UnpublishFault.ReadFails(true))
  {
  }

  /** A node that has no label, or an empty one, under its key. */
  ghost predicate IsUnlabelled(c: Cluster, nodeId: string)
    requires c.service.Some?
  {
    "client/" + nodeId !in c.service.value.labels || c.service.value.labels["client/" + nodeId] == ""
  }

  /** A publish on a volume in use succeeds exactly if its reads did, and its label was there
      or could be written; then the node is a client, and nothing else has changed. One that
      fails at the label changes nothing. */
  lemma PublishAcceptedIff(c: Cluster, node: Node, pvName: string, admitted: bool, fault: PublishFault)
    requires Consistent(c) && c.service.Some?
    ensures var (d, ok) := Published(c, node, pvName, admitted, fault);
            && (ok <==> !fault.NodeLookupFails? && !fault.ReadFails? && !(fault.UpdateServiceFails? && IsUnlabelled(c, node.id)))
            && (ok ==> node.id in Clients(d) && d == c.(service := d.service))
            && (ok ==> d.service.value.labels == if IsUnlabelled(c, node.id) then c.service.value.labels["client/" + node.id := node.id]
                                                 else c.service.value.labels)
            && (!ok && !fault.ReadFails? ==> d == c)
            && Clients(d) == Clients(c) + if ok then {node.id} else {}
  {
    var d := Published(c, node, pvName, admitted, fault).0;
    WithClientMeaning(c.service.value, node.id, node.id);
    forall n ensures n in Clients(d) <==> n in Clients(c) || (Published(c, node, pvName, admitted, fault).1 && n == node.id) {
      ClientsMeaning(c, n);
      ClientsMeaning(d, n);
      WithClientMeaning(c.service.value, node.id, n);
    }
  }

  /** A first publish succeeds exactly if its node was looked up and admitted and each call
      was done; then the node is the one client and the server, and the objects say so. */
  lemma FirstPublishAcceptedIff(c: Cluster, node: Node, pvName: string, admitted: bool, fault: PublishFault)
    requires c.service.None? && c.slice.None?
    ensures var (d, ok) := Published(c, node, pvName, admitted, fault);
            && (ok <==> admitted && (fault.NoFault? || fault.ReadFails? || fault.UpdateServiceFails?))
            && (ok ==>
                  && d.service.Some? && Clients(d) == {node.id} && d.slice == Some(Slice(node.id, node.ip, node.ip))
                  && d.service.value.labels == map["NodeId" := node.id, "client/" + node.id := node.id,
                                                   "NodeIp" := node.ip, "pvName" := pvName]
                  && d.attached == c.attached + {node.id} && d.exported == c.exported + {node.ip})
            && (!admitted ==> d == c)
  {
    var (d, ok) := Published(c, node, pvName, admitted, fault);
    if ok {
      forall n ensures n in Clients(d) <==> n == node.id {
        ClientsMeaning(d, n);
        NewLabelsMeaning(node, pvName, n);
      }
    }
  }

  /** An attempt to reassign succeeds exactly if all was done but for the update of the slice. */
  lemma ReassignAcceptedIff(c: Cluster, read: Slice, target: Node, oldUnexported: bool, fault: ReassignFault)
    ensures Reassigned(c, read, target, oldUnexported, fault).1 <==>
            c.service.Some? && (fault.NoFault? || fault.UpdateSliceFails?)
  {
  }

  /** A recovery succeeds exactly if one of its two attempts does. */
  lemma RecoveryAcceptedIff(c: Cluster, read: Slice, first: Attempt, second: Attempt)
    ensures Recovered(c, read, first, second).1 <==>
            c.service.Some? && (first.fault.NoFault? || first.fault.UpdateSliceFails?
                                || second.fault.NoFault? || second.fault.UpdateSliceFails?)
  {
    var c1 := Reassigned(c, read, first.target, first.oldUnexported, first.fault).0;
    assert c1.service == c.service;
  }

  // --- Faults while unpublishing the last client ---

  /** Faults from which the state keeps both the Service and the slice. */
  predicate Early(fault: UnpublishFault) {
    fault.UpdateServiceFails? || fault.UnexportFails? || fault.DeleteSliceFails?
  }

  function Attempts(c: Cluster, nodeId: string, faults: seq<UnpublishFault>): Cluster
    decreases |faults|
  {
    if faults == [] then c
    else Attempts(Unpublished(c, nodeId, faults[0]).0, nodeId, faults[1..])
  }

  /** After any number of attempts that failed at the label update, the unexport or the
      deletion of the slice, a fault-free retry ends where an unfaulted call would have. */
  lemma {:induction false} UnpublishIsResumable(c: Cluster, nodeId: string, faults: seq<UnpublishFault>)
    requires c.service.Some? && c.slice.Some? && c.slice.value.address != ""
    requires Clients(c) <= {nodeId}
    requires forall i :: 0 <= i < |faults| ==> Early(faults[i])
    ensures Unpublished(Attempts(c, nodeId, faults), nodeId, UnpublishFault.NoFault)
            == Unpublished(c, nodeId, UnpublishFault.NoFault)
    decreases |faults|
  {
    if faults != [] {
      LastClient(c, nodeId);
      var d := Unpublished(c, nodeId, faults[0]).0;
      var left := WithoutClient(c.service.value, nodeId);
      assert WithoutClient(left, nodeId) == left;
      if faults[0].UpdateServiceFails? {
        assert d == c;
      } else {
        NoClientKeysIff(left, d);
        assert Clients(d) == {};
        assert d.exported - {c.slice.value.address} == c.exported - {c.slice.value.address};
      }
      UnpublishIsResumable(d, nodeId, faults[1..]);
    }
  }

  /** Whether a fault-free retry makes up for these attempts: the first that got past the
      deletion of the slice must have got to the end, with the volume no longer exported,
      be it by an attempt before (`gone`). */
  predicate Resumes(faults: seq<UnpublishFault>, gone: bool)
    decreases |faults|
  {
    faults == [] ||
    match faults[0]
    case NoFault => true
    case ServerUnreachable(done) => done || gone
    case DeleteServiceFails => false
    case DetachFails => false
    case UnexportFails(done) => Resumes(faults[1..], gone || done)
    case DeleteSliceFails => Resumes(faults[1..], true)
    case ReadFails(_) => Resumes(faults[1..], gone)
    case UpdateServiceFails => Resumes(faults[1..], gone)
  }

  lemma {:induction false} NothingLeft(c: Cluster, nodeId: string, faults: seq<UnpublishFault>)
    requires c.service.None? || c.slice.None?
    ensures Attempts(c, nodeId, faults) == c
    decreases |faults|
  {
    if faults != [] {
      NothingLeft(c, nodeId, faults[1..]);
    }
  }

  lemma {:induction false} ResumableFrom(c: Cluster, nodeId: string, faults: seq<UnpublishFault>)
    requires c.service.Some? && c.slice.Some? && c.slice.value.address != "" && Clients(c) <= {nodeId}
    requires c.slice.value.nodeID in c.attached
    ensures Unpublished(Attempts(c, nodeId, faults), nodeId, UnpublishFault.NoFault)
            == Unpublished(c, nodeId, UnpublishFault.NoFault)
            <==> Resumes(faults, c.slice.value.address !in c.exported)
    decreases |faults|
  {
    if faults != [] {
      LastClient(c, nodeId);
      var d := Unpublished(c, nodeId, faults[0]).0;
      var left := WithoutClient(c.service.value, nodeId);
      assert WithoutClient(left, nodeId) == left;
      if Early(faults[0]) || faults[0].ReadFails? {
        if d.service != c.service {
          NoClientKeysIff(left, d);
          assert Clients(d) == {};
        }
        ResumableFrom(d, nodeId, faults[1..]);
        assert d.exported - {c.slice.value.address} == c.exported - {c.slice.value.address};
      } else {
        NothingLeft(d, nodeId, faults[1..]);
        var slice := c.slice.value;
        var clean := Unpublished(c, nodeId, UnpublishFault.NoFault).0;
        assert slice.nodeID !in clean.attached;
        assert c.exported == c.exported - {slice.address} <==> slice.address !in c.exported;
        assert Unpublished(d, nodeId, UnpublishFault.NoFault) == (d, true);
      }
    }
  }

  /** After any attempts to unpublish the last client, whatever failed in them, a fault-free
      retry ends where an unfaulted first call would have exactly if they resume. */
  lemma ResumableIff(c: Cluster, nodeId: string, faults: seq<UnpublishFault>)
    requires Consistent(c) && Clients(c) == {nodeId}
    ensures Unpublished(Attempts(c, nodeId, faults), nodeId, UnpublishFault.NoFault)
            == Unpublished(c, nodeId, UnpublishFault.NoFault)
            <==> Resumes(faults, false)
  {
    ResumableFrom(c, nodeId, faults);
  }

  // --- Runs with any faults ---

  datatype Try =
    | TryPublish(node: Node, pvName: string, admitted: bool, publishFault: PublishFault)
    | TryUnpublish(nodeId: string, unpublishFault: UnpublishFault)
    | TryReassign(read: Slice, target: Node, oldUnexported: bool, reassignFault: ReassignFault)

  function Tried(c: Cluster, t: Try): (Cluster, bool) {
    match t
    case TryPublish(node, pvName, admitted, fault) => Published(c, node, pvName, admitted, fault)
    case TryUnpublish(nodeId, fault) => Unpublished(c, nodeId, fault)
    case TryReassign(read, target, oldUnexported, fault) => Reassigned(c, read, target, oldUnexported, fault)
  }

  function After(c: Cluster, tries: seq<Try>): Cluster
    decreases |tries|
  {
    if tries == [] then c else After(Tried(c, tries[0]).0, tries[1..])
  }

  /** The node is never the one that the slice names, nor the one that a recovery read. */
  predicate NeverServes(c: Cluster, tries: seq<Try>, nodeId: string)
    decreases |tries|
  {
    && (c.slice.Some? ==> c.slice.value.nodeID != nodeId)
    && (tries != [] ==>
          && (tries[0].TryReassign? ==> tries[0].read.nodeID != nodeId)
          && NeverServes(Tried(c, tries[0]).0, tries[1..], nodeId))
  }

  lemma {:induction false} LeakStays(c: Cluster, tries: seq<Try>, nodeId: string)
    requires nodeId in c.attached && NeverServes(c, tries, nodeId)
    ensures nodeId in After(c, tries).attached && !SingleAttachment(After(c, tries))
    decreases |tries|
  {
    if tries != [] {
      LeakStays(Tried(c, tries[0]).0, tries[1..], nodeId);
    }
  }

  /** If the Service could not be deleted, or the array could not detach, the retry reports
      success and leaves the volume attached; and so does every run of later calls, with
      any faults, until that node is made the server again. */
  lemma LateFaultLeaksAttachment(c: Cluster, nodeId: string, fault: UnpublishFault, tries: seq<Try>)
    requires Consistent(c) && Clients(c) == {nodeId}
    requires fault.DeleteServiceFails? || fault.DetachFails?
    ensures var d := Unpublished(c, nodeId, fault).0;
            && Unpublished(d, nodeId, UnpublishFault.NoFault) == (d, true)
            && d.attached == {c.slice.value.nodeID}
            && (NeverServes(d, tries, c.slice.value.nodeID) ==>
                  && c.slice.value.nodeID in After(d, tries).attached
                  && !SingleAttachment(After(d, tries)))
  {
    LastClient(c, nodeId);
    var d := Unpublished(c, nodeId, fault).0;
    if NeverServes(d, tries, c.slice.value.nodeID) {
      LeakStays(d, tries, c.slice.value.nodeID);
    }
  }

  // --- Faults while publishing ---

  lemma {:induction false} StaysWithoutService(c: Cluster, tries: seq<Try>)
    requires c.service.None? && c.slice.Some?
    ensures After(c, tries).service.None? && After(c, tries).slice == c.slice
    decreases |tries|
  {
    if tries != [] {
      StaysWithoutService(Tried(c, tries[0]).0, tries[1..]);
    }
  }

  /** A slice without a Service, which a first publish leaves if it cannot create the
      Service, is never repaired: over every run of later calls, with any faults, the
      Service stays absent and each publish is refused. */
  lemma SliceWithoutServiceIsFinal(c: Cluster, tries: seq<Try>)
    requires c.service.None? && c.slice.Some?
    ensures After(c, tries).service.None? && After(c, tries).slice == c.slice
    ensures forall i :: 0 <= i < |tries| && tries[i].TryPublish? ==> !Tried(After(c, tries[..i]), tries[i]).1
  {
    StaysWithoutService(c, tries);
    forall i | 0 <= i < |tries| && tries[i].TryPublish? ensures !Tried(After(c, tries[..i]), tries[i]).1 {
      StaysWithoutService(c, tries[..i]);
    }
  }

  /** A first publish that is refused. */
  predicate IsRefused(t: Try) {
    t.TryPublish? &&
    (!t.admitted || !(t.publishFault.NoFault? || t.publishFault.ReadFails? || t.publishFault.UpdateServiceFails?))
  }

  /** It was refused after its node had been attached and before there was a slice. */
  predicate LeavesAttachment(t: Try) {
    t.TryPublish? && t.admitted && (t.publishFault.ExportFails? || t.publishFault.CreateSliceFails?)
  }

  predicate LeavesSlice(t: Try) {
    t.TryPublish? && t.admitted && t.publishFault.CreateServiceFails?
  }

  ghost predicate CanBeRetried(tries: seq<Try>, node: Node)
    requires forall i :: 0 <= i < |tries| ==> IsRefused(tries[i])
  {
    forall i :: 0 <= i < |tries| ==>
      !LeavesSlice(tries[i]) && (LeavesAttachment(tries[i]) ==> tries[i].node.id == node.id)
  }

  lemma {:induction false} RetryFrom(c: Cluster, tries: seq<Try>, node: Node, pvName: string)
    requires c.service.None? && c.slice.None? && node.ip != ""
    requires forall i :: 0 <= i < |tries| ==> IsRefused(tries[i])
    ensures var (d, ok) := Published(After(c, tries), node, pvName, true, PublishFault.NoFault);
            ok && Consistent(d) <==> c.attached <= {node.id} && CanBeRetried(tries, node)
    decreases |tries|
  {
    if tries == [] {
      var d := Published(c, node, pvName, true, PublishFault.NoFault).0;
      NewLabelsMeaning(node, pvName, node.id);
      ClientsMeaning(d, node.id);
      OnlyOne(d.attached, node.id);
    } else {
      var c1, rest := Tried(c, tries[0]).0, tries[1..];
      if LeavesSlice(tries[0]) {
        StaysWithoutService(c1, rest);
      } else {
        RetryFrom(c1, rest, node, pvName);
        assert CanBeRetried(tries, node) <==>
               (LeavesAttachment(tries[0]) ==> tries[0].node.id == node.id) && CanBeRetried(rest, node) by {
          assert forall i :: 0 <= i < |rest| ==> rest[i] == tries[i + 1];
          assert forall i :: 0 < i < |tries| ==> tries[i] == rest[i - 1];
        }
        assert tries[0].node.id in {tries[0].node.id};
      }
    }
  }

  /** After any number of refused first publishes, a fault-free one on `node` is accepted
      with all in order exactly if none of them left a slice without a Service, and those
      that left an attachment left it on the same node. */
  lemma RetriedPublishIff(tries: seq<Try>, node: Node, pvName: string)
    requires node.ip != "" && forall i :: 0 <= i < |tries| ==> IsRefused(tries[i])
    ensures var (d, ok) := Published(After(EMPTY, tries), node, pvName, true, PublishFault.NoFault);
            ok && Consistent(d) <==> CanBeRetried(tries, node)
  {
    RetryFrom(EMPTY, tries, node, pvName);
  }

  /** A client that arrives after the volume was unexported but before the slice is gone is
      accepted, and its server exports nothing. */
  lemma PublishDuringTeardown(c: Cluster, nodeId: string, node: Node, pvName: string, admitted: bool)
    requires Consistent(c) && Clients(c) == {nodeId}
    ensures var half := Unpublished(c, nodeId, DeleteSliceFails).0;
            var (d, ok) := Published(half, node, pvName, admitted, PublishFault.NoFault);
            ok && node.id in Clients(d) && d.slice == c.slice && c.slice.value.address !in d.exported
  {
    LastClient(c, nodeId);
    var half := Unpublished(c, nodeId, DeleteSliceFails).0;
    var d := Published(half, node, pvName, admitted, PublishFault.NoFault).0;
    WithClientMeaning(half.service.value, node.id, node.id);
    ClientsMeaning(d, node.id);
  }

  /** Whether a fault-free publish is accepted after these attempts to unpublish. */
  predicate AcceptsAfter(faults: seq<UnpublishFault>, admitted: bool)
    decreases |faults|
  {
    faults == [] ||
    match faults[0]
    case NoFault => admitted
    case ServerUnreachable(_) => admitted
    case DeleteServiceFails => false
    case DetachFails => admitted
    case UnexportFails(_) => AcceptsAfter(faults[1..], admitted)
    case DeleteSliceFails => AcceptsAfter(faults[1..], admitted)
    case ReadFails(_) => AcceptsAfter(faults[1..], admitted)
    case UpdateServiceFails => AcceptsAfter(faults[1..], admitted)
  }

  /** Whether it is accepted with all in order. `gone` tells that the volume was unexported
      before, `same` that the publish is for the node that the volume was attached to. */
  predicate ServesAfter(faults: seq<UnpublishFault>, gone: bool, admitted: bool, same: bool)
    decreases |faults|
  {
    if faults == [] then !gone
    else match faults[0]
      case NoFault => admitted
      case ServerUnreachable(_) => admitted
      case DeleteServiceFails => false
      case DetachFails => admitted && same
      case UnexportFails(done) => ServesAfter(faults[1..], gone || done, admitted, same)
      case DeleteSliceFails => ServesAfter(faults[1..], true, admitted, same)
      case ReadFails(_) => ServesAfter(faults[1..], gone, admitted, same)
      case UpdateServiceFails => ServesAfter(faults[1..], gone, admitted, same)
  }

  lemma MadeInOrder(c: Cluster, node: Node, pvName: string)
    requires c.service.None? && c.slice.None? && node.ip != ""
    ensures var (d, ok) := Published(c, node, pvName, true, PublishFault.NoFault);
            ok && (Consistent(d) <==> c.attached <= {node.id})
  {
    RetryFrom(c, [], node, pvName);
  }

  lemma AddedInOrder(c: Cluster, node: Node, pvName: string, admitted: bool)
    requires c.service.Some? && c.slice.Some? && c.slice.value.address == c.slice.value.nodeIP != ""
    requires SingleAttachment(c)
    ensures var (d, ok) := Published(c, node, pvName, admitted, PublishFault.NoFault);
            ok && (Consistent(d) <==> c.slice.value.address in c.exported)
  {
    var d := Published(c, node, pvName, admitted, PublishFault.NoFault).0;
    WithClientMeaning(c.service.value, node.id, node.id);
    ClientsMeaning(d, node.id);
  }

  lemma {:induction false} RepublishFrom(c: Cluster, nodeId: string, faults: seq<UnpublishFault>,
                                         node: Node, pvName: string, admitted: bool)
    requires c.service.Some? && c.slice.Some? && Clients(c) <= {nodeId} && SingleAttachment(c)
    requires c.slice.value.address == c.slice.value.nodeIP != "" && node.ip != ""
    ensures var (d, ok) := Published(Attempts(c, nodeId, faults), node, pvName, admitted, PublishFault.NoFault);
            && (ok <==> AcceptsAfter(faults, admitted))
            && (ok && Consistent(d) <==>
                ServesAfter(faults, c.slice.value.address !in c.exported, admitted, node.id == c.slice.value.nodeID))
    decreases |faults|
  {
    if faults == [] {
      AddedInOrder(c, node, pvName, admitted);
    } else {
      LastClient(c, nodeId);
      var d, rest := Unpublished(c, nodeId, faults[0]).0, faults[1..];
      if Early(faults[0]) || faults[0].ReadFails? {
        if d.service != c.service {
          NoClientKeysIff(WithoutClient(c.service.value, nodeId), d);
          assert Clients(d) == {};
        }
        RepublishFrom(d, nodeId, rest, node, pvName, admitted);
      } else {
        NothingLeft(d, nodeId, rest);
        assert c.attached - {c.slice.value.nodeID} == {};
        if d.service.None? {
          MadeInOrder(d, node, pvName);
          assert c.slice.value.nodeID in c.attached;
        }
      }
    }
  }

  /** After any attempts to unpublish the last client, with any faults, and for a publish
      that comes then, for any node: when it is accepted, and when it is accepted with the
      volume served and all in order. */
  lemma RepublishIff(c: Cluster, nodeId: string, faults: seq<UnpublishFault>, node: Node, pvName: string, admitted: bool)
    requires Consistent(c) && Clients(c) == {nodeId} && node.ip != ""
    ensures var (d, ok) := Published(Attempts(c, nodeId, faults), node, pvName, admitted, PublishFault.NoFault);
            && (ok <==> AcceptsAfter(faults, admitted))
            && (ok && Consistent(d) <==> ServesAfter(faults, false, admitted, node.id == c.slice.value.nodeID))
  {
    RepublishFrom(c, nodeId, faults, node, pvName, admitted);
  }

  /** What an accepted unpublish means: the node is no client, except exactly if it was one
      and the read failed with a text that says "not found". */
  lemma UnpublishedIsNoClientIff(c: Cluster, nodeId: string, fault: UnpublishFault)
    requires Consistent(c)
    ensures var (d, ok) := Unpublished(c, nodeId, fault);
            (ok ==> nodeId !in Clients(d)) <==> !(fault == UnpublishFault.ReadFails(true) && nodeId in Clients(c))
  {
    if c.service.Some? {
      var left := WithoutClient(c.service.value, nodeId);
      WithoutClientMeaning(c.service.value, nodeId, nodeId);
      ClientsMeaning(c.(service := Some(left)), nodeId);
    }
  }

  /** A publish that cannot read the objects takes them to be missing. On a volume in use
      it fails, having attached the volume to a second node, exactly unless the node is the
      server. */
  lemma UnreadablePublishIff(c: Cluster, node: Node, pvName: string)
    requires Consistent(c) && c.slice.Some?
    ensures var (d, ok) := Published(c, node, pvName, true, PublishFault.ReadFails);
            && !ok && d.service == c.service && d.slice == c.slice
            && d.attached == {c.slice.value.nodeID, node.id}
            && (SingleAttachment(d) <==> node.id == c.slice.value.nodeID)
  {
    var d := Published(c, node, pvName, true, PublishFault.ReadFails).0;
    assert d.attached == {c.slice.value.nodeID, node.id};
    assert node.id in d.attached;
  }

  // --- Faults while recovering ---

  /** An attempt that failed before it detached anything. */
  predicate Untouched(fault: ReassignFault) {
    fault.LookupFails? || fault.DetachFails?
  }

  /** How the two attempts may go for the volume to end on one node, the slice's. `server`
      is that node before the recovery; a target may be that same node, if it came back. */
  predicate RecoversCleanly(server: string, first: Attempt, second: Attempt) {
    var one, two := first.target.id, second.target.id;
    match first.fault
    case NoFault => true
    case UpdateSliceFails => one == server
    case _ =>
      match second.fault
      case NoFault => first.fault.ExportFails? ==> one == two || one == server
      case LookupFails => Untouched(first.fault) || (first.fault.ExportFails? && one == server)
      case DetachFails => Untouched(first.fault) || (first.fault.ExportFails? && one == server)
      case TargetFails => false
      case AttachFails => false
      case ExportFails => two == server && (first.fault.ExportFails? ==> one == server)
      case UpdateSliceFails => two == server && (first.fault.ExportFails? ==> one == server)
  }

  /** The attachments that a recovery leaves, before it is asked which node the slice names. */
  lemma AttachedAfterOne(c: Cluster, read: Slice, a: Attempt)
    requires c.service.Some? && c.slice.Some?
    ensures var (d, ok) := Reassigned(c, read, a.target, a.oldUnexported, a.fault);
            && d.service == c.service && d.slice.Some?
            && (ok <==> a.fault.NoFault? || a.fault.UpdateSliceFails?)
            && d.slice.value.nodeID == (if a.fault.NoFault? then a.target.id else c.slice.value.nodeID)
            && d.attached == if Untouched(a.fault) then c.attached
                             else if a.fault.TargetFails? || a.fault.AttachFails? then c.attached - {read.nodeID}
                             else c.attached - {read.nodeID} + {a.target.id}
  {
  }

  /** Whether a node still exports the volume after an attempt that left the slice as it was. */
  predicate StillExports(ip: string, a: Attempt) {
    !a.oldUnexported || a.fault.LookupFails? || (a.fault.UpdateSliceFails? && a.target.ip == ip)
  }

  /** The server that the slice points at exports the volume after the two attempts. */
  predicate RecoversServing(ip: string, first: Attempt, second: Attempt) {
    if first.fault.NoFault? then true
    else if first.fault.UpdateSliceFails? then StillExports(ip, first)
    else if second.fault.NoFault? then true
    else (StillExports(ip, first) && StillExports(ip, second)) || (second.fault.UpdateSliceFails? && second.target.ip == ip)
  }

  lemma ExportedAfterOne(c: Cluster, read: Slice, a: Attempt)
    requires c.service.Some? && c.slice.Some? && c.slice.value.address == read.nodeIP
    ensures var d := Reassigned(c, read, a.target, a.oldUnexported, a.fault).0;
            if a.fault.NoFault? then
              d.slice == Some(Slice(a.target.id, a.target.ip, a.target.ip)) && a.target.ip in d.exported
            else
              d.slice == c.slice
              && (read.nodeIP in d.exported <==>
                  || (read.nodeIP in c.exported && (!a.oldUnexported || a.fault.LookupFails?))
                  || (a.fault.UpdateSliceFails? && a.target.ip == read.nodeIP))
  {
  }

  /** A recovery leaves the volume attached to the slice's node alone exactly in these
      cases; among them none in which the slice update failed after a move, though that is
      reported as a success. All is in order exactly if moreover that node exports it. */
  lemma RecoveryIff(c: Cluster, first: Attempt, second: Attempt)
    requires Consistent(c) && c.slice.Some? && first.target.ip != "" && second.target.ip != ""
    ensures var d := Recovered(c, c.slice.value, first, second).0;
            && (SingleAttachment(d) <==> RecoversCleanly(c.slice.value.nodeID, first, second))
            && (Consistent(d) <==>
                RecoversCleanly(c.slice.value.nodeID, first, second) && RecoversServing(c.slice.value.address, first, second))
    ensures first.fault.UpdateSliceFails? ==> Recovered(c, c.slice.value, first, second).1
  {
    var read := c.slice.value;
    var c1 := Reassigned(c, read, first.target, first.oldUnexported, first.fault).0;
    RecoversCleanlyIff(c, first, second);
    AttachedAfterOne(c, read, first);
    AttachedAfterOne(c1, read, second);
    ExportedAfterOne(c, read, first);
    if !first.fault.NoFault? {
      ExportedAfterOne(c1, read, second);
    }
    SameServiceInOrder(c, Recovered(c, read, first, second).0);
  }

  lemma SameServiceInOrder(c: Cluster, d: Cluster)
    requires Consistent(c) && c.service.Some? && d.service == c.service && d.slice.Some?
    ensures Consistent(d) <==>
            SingleAttachment(d) && d.slice.value.address == d.slice.value.nodeIP != "" && d.slice.value.address in d.exported
  {
    assert Clients(d) == Clients(c);
  }

  lemma RecoversCleanlyIff(c: Cluster, first: Attempt, second: Attempt)
    requires Consistent(c) && c.slice.Some?
    ensures SingleAttachment(Recovered(c, c.slice.value, first, second).0) <==>
            RecoversCleanly(c.slice.value.nodeID, first, second)
    ensures first.fault.UpdateSliceFails? ==> Recovered(c, c.slice.value, first, second).1
  {
    var read := c.slice.value;
    var (c1, ok) := Reassigned(c, read, first.target, first.oldUnexported, first.fault);
    AttachedAfterOne(c, read, first);
    AttachedAfterOne(c1, read, second);
    var d := Recovered(c, read, first, second).0;
    assert forall n :: n in c.attached <==> n == read.nodeID;
    assert forall n :: n in d.attached <==>
             n in if ok then c1.attached else Reassigned(c1, read, second.target, second.oldUnexported, second.fault).0.attached;
    OnlyOne(d.attached, d.slice.value.nodeID);
  }

  lemma OnlyOne(nodes: set<string>, n: string)
    ensures nodes == {n} <==> n in nodes && forall k :: k in nodes ==> k == n
  {
  }
}

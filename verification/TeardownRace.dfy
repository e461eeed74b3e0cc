/** The last unpublish of a volume and its reassignment, step by step. The locks of the two
    do not exclude each other (nfs/controller.go, nfs/noderecovery.go), so their calls to
    the cluster and the array interleave. */
module TeardownRace {
  import opened Wrappers
  import opened VolumeControl

  datatype Actor = Unpublisher | Reassigner

  /** `unpublished` and `reassigned` count the steps made. `service` and `slice` are what the
      unpublisher read; `refused` tells that the reassigner found no Service. */
  datatype State = State(
    cluster: Cluster, unpublished: nat, reassigned: nat, service: Option<Service>, slice: Slice, refused: bool)

  /** The node to unpublish, the slice that the recovery listed, the node to move to. */
  datatype Job = Job(nodeId: string, listed: Slice, target: Node, oldUnexported: bool)

  const UNPUBLISH_STEPS := 6
  const REASSIGN_STEPS := 5

  function Start(c: Cluster): State {
    State(c, 0, 0, None, Slice("", "", ""), false)
  }

  /** One call of an unpublish without faults: read, update the labels, unexport, delete the
      slice, delete the Service, detach. */
  function UnpublishStep(s: State, job: Job): State {
    var c, next := s.cluster, s.(unpublished := s.unpublished + 1);
    if s.unpublished == 0 then
      if c.service.None? || c.slice.None? || c.slice.value.address == "" then s.(unpublished := UNPUBLISH_STEPS)
      else next.(service := c.service, slice := c.slice.value)
    else if s.unpublished == 1 && s.service.Some? then
      var left := WithoutClient(s.service.value, job.nodeId);
      var updated := next.(cluster := c.(service := Some(left)));
      if ClientKeys(left.labels) != {} then updated.(unpublished := UNPUBLISH_STEPS) else updated
    else if s.unpublished == 2 then next.(cluster := c.(exported := c.exported - {s.slice.address}))
    else if s.unpublished == 3 then next.(cluster := c.(slice := None))
    else if s.unpublished == 4 then next.(cluster := c.(service := None))
    else if s.unpublished == 5 then next.(cluster := c.(attached := c.attached - {s.slice.nodeID}))
    else s
  }

  /** One call of a reassignment without faults: look up the Service, detach from the listed
      node, attach to the target, export there, update the slice. */
  function ReassignStep(s: State, job: Job): State {
    var c, next := s.cluster, s.(reassigned := s.reassigned + 1);
    if s.reassigned == 0 then next.(refused := c.service.None?)
    else if s.refused && s.reassigned < REASSIGN_STEPS then next
    else if s.reassigned == 1 then
      var exported := if job.oldUnexported then c.exported - {job.listed.nodeIP} else c.exported;
      next.(cluster := c.(attached := c.attached - {job.listed.nodeID}, exported := exported))
    else if s.reassigned == 2 then next.(cluster := c.(attached := c.attached + {job.target.id}))
    else if s.reassigned == 3 then next.(cluster := c.(exported := c.exported + {job.target.ip}))
    else if s.reassigned == 4 then
      if c.slice.None? then next
      else next.(cluster := c.(slice := Some(Slice(job.target.id, job.target.ip, job.target.ip))))
    else s
  }

  function Next(s: State, job: Job, actor: Actor): State {
    if actor.Unpublisher? then UnpublishStep(s, job) else ReassignStep(s, job)
  }

  function Run(c: Cluster, job: Job, schedule: seq<Actor>): State {
    if schedule == [] then Start(c)
    else Next(Run(c, job, schedule[..|schedule| - 1]), job, schedule[|schedule| - 1])
  }

  // --- The steps are those of the two operations ---

  lemma UnpublishAlone(c: Cluster, job: Job)
    ensures var read := UnpublishStep(Start(c), job);
            var updated := UnpublishStep(read, job);
            var unexported := UnpublishStep(updated, job);
            var unsliced := UnpublishStep(unexported, job);
            var deleted := UnpublishStep(unsliced, job);
            UnpublishStep(deleted, job).cluster == Unpublished(c, job.nodeId, UnpublishFault.NoFault).0
  {
    if c.service.Some? && c.slice.Some? && c.slice.value.address != "" {
      var read := UnpublishStep(Start(c), job);
      var updated := UnpublishStep(read, job);
      assert updated.cluster == c.(service := Some(WithoutClient(c.service.value, job.nodeId)));
    }
  }

  lemma ReassignAlone(c: Cluster, job: Job)
    ensures var found := ReassignStep(Start(c), job);
            var detached := ReassignStep(found, job);
            var attached := ReassignStep(detached, job);
            var exported := ReassignStep(attached, job);
            ReassignStep(exported, job).cluster
            == Reassigned(c, job.listed, job.target, job.oldUnexported, ReassignFault.NoFault).0
  {
  }

  lemma RunStep(c: Cluster, job: Job, schedule: seq<Actor>, actor: Actor)
    ensures Run(c, job, schedule + [actor]) == Next(Run(c, job, schedule), job, actor)
  {
    assert (schedule + [actor])[..|schedule|] == schedule;
  }

  // --- The order of steps in a schedule ---

  function Count(schedule: seq<Actor>, actor: Actor): nat {
    if schedule == [] then 0
    else Count(schedule[..|schedule| - 1], actor) + if schedule[|schedule| - 1] == actor then 1 else 0
  }

  /** Step i of one actor was made before step j of the other. */
  ghost predicate CameFirst(schedule: seq<Actor>, actor: Actor, i: nat, j: nat) {
    exists k :: 0 <= k <= |schedule| && CameFirstBy(schedule[..k], actor, i, j)
  }

  predicate CameFirstBy(schedule: seq<Actor>, actor: Actor, i: nat, j: nat) {
    Count(schedule, actor) >= i && Count(schedule, if actor.Unpublisher? then Reassigner else Unpublisher) < j
  }

  lemma CameFirstStep(front: seq<Actor>, x: Actor, actor: Actor, i: nat, j: nat)
    ensures CameFirst(front + [x], actor, i, j) <==>
            CameFirst(front, actor, i, j) || CameFirstBy(front + [x], actor, i, j)
  {
    var schedule := front + [x];
    assert schedule[..|schedule|] == schedule;
    forall k | 0 <= k <= |front| ensures schedule[..k] == front[..k] {
    }
  }

  lemma CountStep(front: seq<Actor>, x: Actor, actor: Actor)
    ensures Count(front + [x], actor) == Count(front, actor) + if x == actor then 1 else 0
  {
    assert (front + [x])[..|front|] == front;
  }

  // --- What the state says about the order ---

  /** The reassigner looked for the Service after it had been deleted. */
  ghost predicate LookedTooLate(schedule: seq<Actor>) {
    CameFirst(schedule, Unpublisher, 5, 1)
  }

  /** The unpublisher read the slice after it had been updated. */
  ghost predicate ReadMoved(schedule: seq<Actor>) {
    CameFirst(schedule, Reassigner, 5, 1)
  }

  /** The array attached the target before it detached for the unpublisher. */
  ghost predicate AttachedBeforeDetached(schedule: seq<Actor>) {
    CameFirst(schedule, Reassigner, 3, 6)
  }

  /** The target exported before the unpublisher sent its unexport. */
  ghost predicate ExportedBeforeUnexported(schedule: seq<Actor>) {
    CameFirst(schedule, Reassigner, 4, 3)
  }

  function Min(a: nat, b: nat): nat {
    if a < b then a else b
  }

  ghost predicate Follows(s: State, c: Cluster, job: Job, schedule: seq<Actor>)
    requires c.slice.Some? && c.service.Some?
  {
    var server := c.slice.value.nodeID;
    var u, r := s.unpublished, s.reassigned;
    var moving := r >= 3 && !s.refused;
    && u == Min(Count(schedule, Unpublisher), UNPUBLISH_STEPS)
    && r == Min(Count(schedule, Reassigner), REASSIGN_STEPS)
    && (s.refused <==> r >= 1 && LookedTooLate(schedule))
    && (LookedTooLate(schedule) ==> u >= 5)
    && (ReadMoved(schedule) ==> r >= 5 && AttachedBeforeDetached(schedule) && !s.refused)
    && (AttachedBeforeDetached(schedule) ==> r >= 3)
    && (u < 6 && r >= 3 ==> AttachedBeforeDetached(schedule))
    && (u < 1 && r >= 5 ==> ReadMoved(schedule))
    && (u >= 5 && r < 1 ==> LookedTooLate(schedule))
    && (s.cluster.service.Some? <==> u < 5)
    && (u < 2 ==> s.cluster.service == c.service)
    && (s.cluster.slice.Some? <==> u < 4)
    && (u < 4 ==> s.cluster.slice.value ==
                  if r >= 5 then Slice(job.target.id, job.target.ip, job.target.ip) else c.slice.value)
    && (u >= 1 ==> s.service == c.service
                   && s.slice.nodeID == if ReadMoved(schedule) then job.target.id else server)
    && s.cluster.attached ==
       if u < 6 then if moving then {job.target.id} else if r < 2 || s.refused then {server} else {}
       else if moving && !(AttachedBeforeDetached(schedule) && s.slice.nodeID == job.target.id) then {job.target.id}
       else {}
  }

  /** The exports: those of others, the old server's unless it was told to stop by either
      of the two, and the target's unless the unpublisher told it to after it had started. */
  ghost predicate ExportsFollow(s: State, c: Cluster, job: Job, schedule: seq<Actor>)
    requires c.slice.Some? && c.service.Some?
  {
    var server, target := c.slice.value.address, job.target.ip;
    var u, r := s.unpublished, s.reassigned;
    var asked := if ReadMoved(schedule) then target else server;
    var stopped := (u >= 3 && asked == server) || (r >= 2 && !s.refused && job.oldUnexported);
    var rest := if stopped then c.exported - {server} else c.exported;
    && (ReadMoved(schedule) ==> ExportedBeforeUnexported(schedule))
    && (ExportedBeforeUnexported(schedule) ==> r >= 4)
    && (u < 3 && r >= 4 ==> ExportedBeforeUnexported(schedule))
    && (u >= 1 ==> s.slice.address == asked)
    && s.cluster.exported ==
       if r < 4 || s.refused then rest
       else if u >= 3 && asked == target && ExportedBeforeUnexported(schedule) then rest - {target}
       else rest + {target}
  }

  lemma UnpublishFollows(s: State, c: Cluster, job: Job, front: seq<Actor>)
    requires Consistent(c) && Clients(c) == {job.nodeId} && job.listed == c.slice.value && job.target.ip != ""
    requires Follows(s, c, job, front)
    ensures Follows(UnpublishStep(s, job), c, job, front + [Unpublisher])
    ensures ExportsFollow(s, c, job, front) ==> ExportsFollow(UnpublishStep(s, job), c, job, front + [Unpublisher])
  {
    OrderStep(front, Unpublisher);
    LastClient(c, job.nodeId);
  }

  lemma ReassignFollows(s: State, c: Cluster, job: Job, front: seq<Actor>)
    requires Consistent(c) && Clients(c) == {job.nodeId} && job.listed == c.slice.value && job.target.ip != ""
    requires Follows(s, c, job, front)
    ensures Follows(ReassignStep(s, job), c, job, front + [Reassigner])
    ensures ExportsFollow(s, c, job, front) ==> ExportsFollow(ReassignStep(s, job), c, job, front + [Reassigner])
  {
    OrderStep(front, Reassigner);
  }

  lemma OrderStep(front: seq<Actor>, x: Actor)
    ensures forall actor :: Count(front + [x], actor) == Count(front, actor) + if x == actor then 1 else 0
    ensures var u, r := Count(front + [x], Unpublisher), Count(front + [x], Reassigner);
            && (LookedTooLate(front + [x]) <==> LookedTooLate(front) || (u >= 5 && r < 1))
            && (ReadMoved(front + [x]) <==> ReadMoved(front) || (r >= 5 && u < 1))
            && (AttachedBeforeDetached(front + [x]) <==> AttachedBeforeDetached(front) || (r >= 3 && u < 6))
            && (ExportedBeforeUnexported(front + [x]) <==> ExportedBeforeUnexported(front) || (r >= 4 && u < 3))
  {
    forall actor ensures Count(front + [x], actor) == Count(front, actor) + if x == actor then 1 else 0 {
      CountStep(front, x, actor);
    }
    CameFirstStep(front, x, Unpublisher, 5, 1);
    CameFirstStep(front, x, Reassigner, 5, 1);
    CameFirstStep(front, x, Reassigner, 3, 6);
    CameFirstStep(front, x, Reassigner, 4, 3);
  }

  lemma {:induction false} RunFollows(c: Cluster, job: Job, schedule: seq<Actor>)
    requires Consistent(c) && Clients(c) == {job.nodeId} && job.listed == c.slice.value && job.target.ip != ""
    ensures Follows(Run(c, job, schedule), c, job, schedule)
    ensures ExportsFollow(Run(c, job, schedule), c, job, schedule)
  {
    if schedule == [] {
      NothingCameFirst();
    } else {
      var n := |schedule| - 1;
      var front, x := schedule[..n], schedule[n];
      assert schedule == front + [x];
      RunFollows(c, job, front);
      if x.Unpublisher? {
        UnpublishFollows(Run(c, job, front), c, job, front);
      } else {
        ReassignFollows(Run(c, job, front), c, job, front);
      }
    }
  }

  lemma NothingCameFirst()
    ensures !LookedTooLate([]) && !ReadMoved([]) && !AttachedBeforeDetached([]) && !ExportedBeforeUnexported([])
  {
    var none: seq<Actor> := [];
    assert forall k :: 0 <= k <= |none| ==> none[..k] == none;
  }

  ghost function FinalExports(c: Cluster, job: Job, schedule: seq<Actor>): set<string>
    requires c.slice.Some?
  {
    var server, target := c.slice.value.address, job.target.ip;
    if LookedTooLate(schedule) then c.exported - {server}
    else
      var asked := if ReadMoved(schedule) then target else server;
      var rest := if asked == server || job.oldUnexported then c.exported - {server} else c.exported;
      if asked == target && ExportedBeforeUnexported(schedule) then rest - {target} else rest + {target}
  }

  /** Over every interleaving of the last unpublish with a reassignment that both come to
      their ends, the Service and the slice are gone. The volume is detached exactly if the
      reassigner looked for the Service after it had been deleted, or the unpublisher read
      the slice after it had been updated, or the volume was moved to the node it was on and
      attached there before it was detached; otherwise it stays attached to the target. The
      old server goes on exporting exactly if the unpublisher asked the target instead and
      no other unexport was done; the target goes on exporting unless it was never asked to
      start, or was asked to stop after that. */
  lemma UnpublishRacesReassign(c: Cluster, job: Job, schedule: seq<Actor>)
    requires Consistent(c) && Clients(c) == {job.nodeId} && job.listed == c.slice.value && job.target.ip != ""
    requires Count(schedule, Unpublisher) >= UNPUBLISH_STEPS && Count(schedule, Reassigner) >= REASSIGN_STEPS
    ensures var d := Run(c, job, schedule).cluster;
            && d.service.None? && d.slice.None?
            && (d.attached == {} <==>
                || LookedTooLate(schedule) || ReadMoved(schedule)
                || (job.target.id == c.slice.value.nodeID && AttachedBeforeDetached(schedule)))
            && (d.attached != {} ==> d.attached == {job.target.id})
            && d.exported == FinalExports(c, job, schedule)
  {
    RunFollows(c, job, schedule);
  }
}

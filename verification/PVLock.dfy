/** The per-volume lock of the controller (nfs/controller.go): handlers take it by storing
    the volume ID of their request in a shared map and release it by deleting the key that
    was fixed when the release was deferred. Meanwhile the request's ID may be rewritten. */
module PVLock {
  import ServiceNames

  datatype Phase = Waiting | Inside | Done

  /** `volumeId` is the ID in the request, `deferred` the argument of the deferred release. */
  datatype Handler = Handler(volumeId: string, requestId: string, deferred: string, phase: Phase)

  datatype State = State(held: map<string, string>, handlers: seq<Handler>)

  datatype Step =
    | TryLock(h: nat)                       // one turn of the loop in LockPV
    | Rewrite(h: nat, volumeId: string)     // the request's ID is overwritten
    | Unlock(h: nat)                        // the deferred UnlockPV

  predicate Enabled(s: State, step: Step) {
    && step.h < |s.handlers|
    && match step
       case TryLock(h) => s.handlers[h].phase == Waiting
       case Rewrite(h, _) => s.handlers[h].phase == Inside
       case Unlock(h) => s.handlers[h].phase == Inside
  }

  function Next(s: State, step: Step): State
    requires Enabled(s, step)
  {
    var me := s.handlers[step.h];
    match step
    case TryLock(h) =>
      if me.volumeId in s.held then s
      else State(s.held[me.volumeId := me.requestId],
                 s.handlers[h := me.(deferred := me.volumeId, phase := Inside)])
    case Rewrite(h, volumeId) =>
      s.(handlers := s.handlers[h := me.(volumeId := volumeId)])
    case Unlock(h) =>
      State(s.held - {me.deferred}, s.handlers[h := me.(phase := Done)])
  }

  ghost predicate CanRun(s: State, steps: seq<Step>)
    decreases |steps|
  {
    steps == [] || (Enabled(s, steps[0]) && CanRun(Next(s, steps[0]), steps[1..]))
  }

  function Run(s: State, steps: seq<Step>): State
    requires CanRun(s, steps)
    decreases |steps|
  {
    if steps == [] then s else Run(Next(s, steps[0]), steps[1..])
  }

  predicate Initial(s: State) {
    s.held == map[] && forall h :: 0 <= h < |s.handlers| ==> s.handlers[h].phase == Waiting
  }

  predicate IsInside(s: State, h: int) {
    0 <= h < |s.handlers| && s.handlers[h].phase == Inside
  }

  predicate Holds(s: State, h: int, key: string) {
    IsInside(s, h) && s.handlers[h].deferred == key
  }

  /** No two handlers are inside with the same key. */
  ghost predicate Exclusive(s: State) {
    forall g, h, key :: Holds(s, g, key) && Holds(s, h, key) ==> g == h
  }

  /** The map holds exactly the keys of the handlers inside. */
  ghost predicate Exact(s: State) {
    && (forall h, key :: Holds(s, h, key) ==> key in s.held)
    && forall key :: key in s.held ==> exists h :: Holds(s, h, key)
  }

  lemma StepKeepsExclusion(s: State, step: Step)
    requires Exclusive(s) && Exact(s) && Enabled(s, step)
    ensures Exclusive(Next(s, step)) && Exact(Next(s, step))
  {
    var t := Next(s, step);
    var me := s.handlers[step.h];
    forall g, key
      ensures Holds(t, g, key) <==>
              if g != step.h || step.Rewrite? || (step.TryLock? && me.volumeId in s.held) then Holds(s, g, key)
              else step.TryLock? && key == me.volumeId
    {
    }
    assert step.Unlock? ==> Holds(s, step.h, me.deferred);
    forall key | key in t.held ensures exists h :: Holds(t, h, key) {
      if key in s.held {
        var h :| Holds(s, h, key);
        assert Holds(t, h, key);
      } else {
        assert Holds(t, step.h, key);
      }
    }
  }

  /** For any number of handlers and any interleaving, at most one is inside per key, and
      the map holds exactly the keys of those inside. */
  lemma {:induction false} MutualExclusion(s: State, steps: seq<Step>)
    requires Exclusive(s) && Exact(s) && CanRun(s, steps)
    ensures Exclusive(Run(s, steps)) && Exact(Run(s, steps))
    decreases |steps|
  {
    if steps != [] {
      StepKeepsExclusion(s, steps[0]);
      MutualExclusion(Next(s, steps[0]), steps[1..]);
    }
  }

  /** Whatever was written into its request meanwhile, a handler that leaves frees the key
      it took and no other: every other handler keeps its own. */
  lemma UnlockFreesOwnKey(s: State, steps: seq<Step>, h: nat)
    requires Initial(s) && CanRun(s, steps)
    requires Enabled(Run(s, steps), Unlock(h))
    ensures var before := Run(s, steps);
            var after := Next(before, Unlock(h));
            var key := before.handlers[h].deferred;
            && key in before.held && after.held == before.held - {key}
            && (forall g, k :: g != h ==> (Holds(after, g, k) <==> Holds(before, g, k)))
            && forall g :: !Holds(after, g, key)
  {
    MutualExclusion(s, steps);
    var before := Run(s, steps);
    var after := Next(before, Unlock(h));
    assert Holds(before, h, before.handlers[h].deferred);
    forall g, k | g != h ensures Holds(after, g, k) <==> Holds(before, g, k) {
    }
  }

  // --- Publishing and reassigning ---

  /** A handler that publishes or unpublishes a volume, and one that reassigns it. The
      latter locks the ID in the slice's annotation, which was written after the publish
      request's ID had been turned into the array's. */
  function PublishAndReassign(volumeId: string): State {
    State(map[], [Handler(volumeId, "publish", "", Waiting),
                  Handler(ServiceNames.ToArrayVolumeID(volumeId), "reassign", "", Waiting)])
  }

  ghost predicate CanOverlap(volumeId: string) {
    exists steps: seq<Step> :: CanRun(PublishAndReassign(volumeId), steps)
                    && IsInside(Run(PublishAndReassign(volumeId), steps), 0)
                    && IsInside(Run(PublishAndReassign(volumeId), steps), 1)
  }

  /** A handler waits for the ID it came with, and is inside with that ID, whatever its
      request says by then. */
  ghost predicate LocksOwnId(initial: State, s: State) {
    && |s.handlers| == |initial.handlers|
    && forall h :: 0 <= h < |s.handlers| ==>
         && (s.handlers[h].phase == Waiting ==> s.handlers[h].volumeId == initial.handlers[h].volumeId)
         && (s.handlers[h].phase == Inside ==> s.handlers[h].deferred == initial.handlers[h].volumeId)
  }

  lemma {:induction false} RunLocksOwnId(initial: State, s: State, steps: seq<Step>)
    requires LocksOwnId(initial, s) && CanRun(s, steps)
    ensures LocksOwnId(initial, Run(s, steps))
    decreases |steps|
  {
    if steps != [] {
      RunLocksOwnId(initial, Next(s, steps[0]), steps[1..]);
    }
  }

  lemma BothEnter(s: State)
    requires Initial(s) && |s.handlers| == 2 && s.handlers[0].volumeId != s.handlers[1].volumeId
    ensures var steps := [TryLock(0), TryLock(1)];
            CanRun(s, steps) && IsInside(Run(s, steps), 0) && IsInside(Run(s, steps), 1)
  {
    var steps := [TryLock(0), TryLock(1)];
    var s1 := Next(s, steps[0]);
    var s2 := Next(s1, steps[1]);
    assert steps[1..] == [TryLock(1)] && steps[1..][1..] == [];
    assert CanRun(s2, []) && Run(s2, []) == s2;
    assert CanRun(s1, steps[1..]) && Run(s1, steps[1..]) == s2;
  }

  /** Over all runs of the two handlers, with their requests' IDs overwritten at will,
      publishing and reassigning a volume exclude each other exactly when its ID does not
      carry the NFS prefix, which the IDs of shared volumes all do. */
  lemma OverlapIff(volumeId: string)
    ensures CanOverlap(volumeId) <==> ServiceNames.HasNFSPrefix(volumeId)
  {
    ServiceNames.VolumeIDRoundTrip(volumeId);
    var s := PublishAndReassign(volumeId);
    if ServiceNames.HasNFSPrefix(volumeId) {
      BothEnter(s);
    } else {
      forall steps: seq<Step> | CanRun(s, steps)
        ensures !(IsInside(Run(s, steps), 0) && IsInside(Run(s, steps), 1))
      {
        RunLocksOwnId(s, s, steps);
        MutualExclusion(s, steps);
        var t := Run(s, steps);
        assert Holds(t, 0, volumeId) && Holds(t, 1, volumeId) ==> 0 == 1;
      }
    }
  }
}

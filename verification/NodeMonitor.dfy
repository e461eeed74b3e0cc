/** The monitor that pings a node, decides when to recover its volumes and when to tell it
    to drop its exports (nfs/nodemonitor.go). */
module NodeMonitor {
  import opened Wrappers
  import Text
  import Reservations

  datatype Result = Reply(ready: bool, status: string) | Failure(message: string)

  /** Failures with these texts say more about the monitor's own node, and do not count. */
  const EXEMPT_TEXTS := ["network is unreachable", "error while waiting for new LB policy update",
                         "deadline exceeded while waiting for connections to become ready"]

  predicate Exempt(message: string, exempt: seq<string>) {
    exists i :: 0 <= i < |exempt| && Text.Contains(message, exempt[i])
  }

  /** A ping as the pinger takes its result. A reply that is not ready comes without an
      error, and the pinger asks that missing error for its text. */
  datatype Ping = Good(status: string) | Bad | Ignored | Fatal

  function PingOf(r: Result, exempt: seq<string>): Ping {
    match r
    case Reply(ready, status) => if ready then Good(status) else Fatal
    case Failure(message) => if Exempt(message, exempt) then Ignored else Bad
  }

  function Pings(results: seq<Result>, exempt: seq<string>): seq<Ping> {
    seq(|results|, i requires 0 <= i < |results| => PingOf(results[i], exempt))
  }

  datatype Status = Status(
    badPings: nat, goodPings: nat, inRecovery: bool, online: bool, dumping: bool, text: string,
    recoveries: nat, panicked: bool)

  const INITIAL := Status(0, 0, false, false, false, "", 0, false)

  function Next(s: Status, p: Ping, maxBadPing: nat): Status {
    if s.panicked then s
    else match p
      case Fatal => s.(panicked := true)
      case Ignored => s
      case Bad =>
        var start := !s.inRecovery && s.badPings + 1 >= maxBadPing;
        s.(online := false, badPings := s.badPings + 1, goodPings := 0,
           inRecovery := s.inRecovery || start, dumping := s.dumping || start,
           recoveries := if start then s.recoveries + 1 else s.recoveries)
      case Good(status) =>
        s.(text := status, online := true, badPings := 0, goodPings := s.goodPings + 1,
           dumping := s.dumping && s.goodPings + 1 < 2, inRecovery := false)
  }

  function Run(trace: seq<Ping>, maxBadPing: nat): Status {
    if trace == [] then INITIAL
    else Next(Run(trace[..|trace| - 1], maxBadPing), trace[|trace| - 1], maxBadPing)
  }

  class NodeStatus {
    const maxBadPing: nat
    const exempt: seq<string>
    var badPings: nat
    var goodPings: nat
    var inRecovery: bool
    var online: bool
    var dumpingExports: bool
    var status: string
    var recoveries: nat  // how many recoveries were started
    var panicked: bool

    ghost function View(): Status
      reads this
    {
      Status(badPings, goodPings, inRecovery, online, dumpingExports, status, recoveries, panicked)
    }

    constructor (maxBadPing: nat)
      ensures View() == INITIAL && this.maxBadPing == maxBadPing && this.exempt == EXEMPT_TEXTS
    {
      this.maxBadPing, this.exempt := maxBadPing, EXEMPT_TEXTS;
      badPings, goodPings, recoveries := 0, 0, 0;
      inRecovery, online, dumpingExports, panicked := false, false, false, false;
      status := "";
    }

    /** One turn of the endless loop, from the result of its ping. */
    method Observe(result: Result)
      requires !panicked
      modifies this
      ensures View() == Next(old(View()), PingOf(result, exempt), maxBadPing)
    {
      match result
      case Failure(message) =>
        if !Exempt(message, exempt) {
          online := false;
          badPings := badPings + 1;
          goodPings := 0;
          if !inRecovery && badPings >= maxBadPing {
            inRecovery := true;
            dumpingExports := true;
            recoveries := recoveries + 1;
          }
        }
      case Reply(ready, text) =>
        if !ready {
          panicked := true;
        } else {
          status := text;
          online := true;
          badPings := 0;
          goodPings := goodPings + 1;
          if goodPings >= 2 {
            dumpingExports := false;
          }
          inRecovery := false;
        }
    }

    /** The first turns of the endless loop, given the results of their pings; returns what
        each request asked for in DumpAllExports, up to the ping whose result panics. */
    method Pinger(results: seq<Result>) returns (dumpRequests: seq<bool>)
      requires View() == INITIAL
      modifies this
      ensures View() == Run(Pings(results, exempt), maxBadPing)
      ensures |dumpRequests| <= |results|
      ensures !View().panicked ==> |dumpRequests| == |results|
      ensures dumpRequests == Requests(Pings(results, exempt)[..|dumpRequests|], maxBadPing)
    {
      ghost var trace := Pings(results, exempt);
      dumpRequests := [];
      var k := 0;
      while k < |results| && !panicked
        invariant 0 <= k <= |results| && |dumpRequests| == k
        invariant View() == Run(trace[..k], maxBadPing)
        invariant dumpRequests == Requests(trace[..k], maxBadPing)
      {
        RunStep(trace, k, maxBadPing);
        dumpRequests := dumpRequests + [dumpingExports];
        Observe(results[k]);
        k := k + 1;
      }
      PanicIsFinal(trace, k, maxBadPing);
    }
  }

  /** What the requests of a trace asked for in DumpAllExports. */
  function Requests(trace: seq<Ping>, maxBadPing: nat): seq<bool> {
    if trace == [] then []
    else
      var front := trace[..|trace| - 1];
      Requests(front, maxBadPing) + [Run(front, maxBadPing).dumping]
  }

  lemma {:induction false} RequestMeaning(trace: seq<Ping>, maxBadPing: nat, k: nat)
    requires k < |trace|
    ensures |Requests(trace, maxBadPing)| == |trace|
    ensures Requests(trace, maxBadPing)[k] == Run(trace[..k], maxBadPing).dumping
  {
    var n := |trace| - 1;
    if k < n {
      RequestMeaning(trace[..n], maxBadPing, k);
      assert trace[..n][..k] == trace[..k];
    } else if n > 0 {
      RequestMeaning(trace[..n], maxBadPing, 0);
    }
  }

  lemma RunStep(trace: seq<Ping>, k: nat, maxBadPing: nat)
    requires k < |trace|
    ensures Run(trace[..k + 1], maxBadPing) == Next(Run(trace[..k], maxBadPing), trace[k], maxBadPing)
    ensures Requests(trace[..k + 1], maxBadPing) == Requests(trace[..k], maxBadPing) + [Run(trace[..k], maxBadPing).dumping]
  {
    assert trace[..k + 1][..k] == trace[..k];
  }

  lemma {:induction false} PanicIsFinal(trace: seq<Ping>, k: nat, maxBadPing: nat)
    requires k <= |trace| && (k < |trace| ==> Run(trace[..k], maxBadPing).panicked)
    ensures Run(trace, maxBadPing) == Run(trace[..k], maxBadPing)
  {
    if k == |trace| {
      assert trace[..k] == trace;
    } else {
      var n := |trace| - 1;
      assert trace[..n][..k] == trace[..k];
      PanicIsFinal(trace[..n], k, maxBadPing);
    }
  }

  // --- The counted pings of a trace ---

  ghost predicate Survives(trace: seq<Ping>) {
    forall k :: 0 <= k < |trace| ==> !trace[k].Fatal?
  }

  /** The pings that count, in order: true for a good one, false for a failure. */
  function Counted(trace: seq<Ping>): seq<bool> {
    if trace == [] then []
    else
      var n := |trace| - 1;
      Counted(trace[..n]) + match trace[n]
                            case Good(_) => [true]
                            case Bad => [false]
                            case _ => []
  }

  function Trailing(pings: seq<bool>, value: bool): nat {
    if pings == [] || pings[|pings| - 1] != value then 0
    else Trailing(pings[..|pings| - 1], value) + 1
  }

  ghost predicate AllBad(pings: seq<bool>, from: int, to: int) {
    0 <= from <= to <= |pings| && forall k :: from <= k < to ==> !pings[k]
  }

  ghost predicate MaximalRun(pings: seq<bool>, from: int, to: int) {
    && from < to && AllBad(pings, from, to)
    && (from == 0 || pings[from - 1])
    && (to == |pings| || pings[to])
  }

  ghost predicate LongRunStarts(pings: seq<bool>, length: int, from: int) {
    AllBad(pings, from, from + length) && (from == 0 || pings[from - 1])
  }

  /** The places where a maximal run of at least `length` failures starts. */
  ghost function LongRuns(pings: seq<bool>, length: int): set<int> {
    set i | 0 <= i < |pings| && LongRunStarts(pings, length, i)
  }

  lemma RunEnd(pings: seq<bool>, from: int, to: int) returns (end: int)
    requires AllBad(pings, from, to)
    ensures to <= end && AllBad(pings, from, end) && (end == |pings| || pings[end])
  {
    end := to;
    while end < |pings| && !pings[end]
      invariant to <= end && AllBad(pings, from, end)
    {
      end := end + 1;
    }
  }

  lemma LongRunsAreMaximalRuns(pings: seq<bool>, length: int, from: int)
    requires length >= 1
    ensures from in LongRuns(pings, length) <==>
            exists to :: MaximalRun(pings, from, to) && to - from >= length
  {
    if from in LongRuns(pings, length) {
      var end := RunEnd(pings, from, from + length);
      assert MaximalRun(pings, from, end);
    }
  }

  /** No two good pings in a row from the given place on. */
  ghost predicate NoGoodPair(pings: seq<bool>, from: int) {
    forall q {:trigger pings[q]} :: 0 <= from <= q && q + 1 < |pings| ==> !(pings[q] && pings[q + 1])
  }

  /** Some recovery was started, and since then there were no two good pings in a row. */
  ghost predicate DumpPending(pings: seq<bool>, length: int) {
    exists i :: i in LongRuns(pings, length) && NoGoodPair(pings, i + length)
  }

  // --- Appending one counted ping ---

  lemma {:induction false} TrailingIsRun(pings: seq<bool>)
    ensures Trailing(pings, false) <= |pings|
    ensures AllBad(pings, |pings| - Trailing(pings, false), |pings|)
    ensures Trailing(pings, false) < |pings| ==> pings[|pings| - Trailing(pings, false) - 1]
  {
    if pings != [] && !pings[|pings| - 1] {
      var n := |pings| - 1;
      var front := pings[..n];
      TrailingIsRun(front);
      forall k | |pings| - Trailing(pings, false) <= k < |pings| ensures !pings[k] {
        assert k < n ==> pings[k] == front[k];
      }
    }
  }

  lemma OldRuns(pings: seq<bool>, good: bool, length: int, i: int)
    requires length >= 1 && i + length <= |pings|
    ensures LongRunStarts(pings + [good], length, i) <==> LongRunStarts(pings, length, i)
  {
    var more := pings + [good];
    assert forall k :: 0 <= k < |pings| ==> more[k] == pings[k];
  }

  /** A run of failures up to the end that starts after a good ping is the trailing run. */
  lemma {:induction false} RunLength(pings: seq<bool>, from: int)
    requires 0 <= from <= |pings| && (from == 0 || pings[from - 1])
    requires forall k :: from <= k < |pings| ==> !pings[k]
    ensures Trailing(pings, false) == |pings| - from
  {
    if from < |pings| {
      RunLength(pings[..|pings| - 1], from);
    }
  }

  lemma LongRunTrails(pings: seq<bool>, length: int)
    requires length >= 1 && LongRunStarts(pings + [false], length, |pings| + 1 - length)
    ensures Trailing(pings, false) + 1 == length
  {
    var more, from := pings + [false], |pings| + 1 - length;
    forall k | from <= k < |pings| ensures !pings[k] {
      assert !more[k];
    }
    assert from > 0 ==> more[from - 1] == pings[from - 1];
    RunLength(pings, from);
  }

  lemma TrailingStartsLongRun(pings: seq<bool>, length: int)
    requires length >= 1 && Trailing(pings, false) + 1 == length
    ensures LongRunStarts(pings + [false], length, |pings| + 1 - length)
  {
    var more, from := pings + [false], |pings| + 1 - length;
    TrailingIsRun(pings);
    forall k | from <= k < |more| ensures !more[k] {
      assert k < |pings| ==> more[k] == pings[k];
    }
    assert from > 0 ==> more[from - 1] == pings[from - 1];
  }

  lemma NoNewRun(pings: seq<bool>, length: int)
    requires length >= 1
    ensures !LongRunStarts(pings + [true], length, |pings| + 1 - length)
  {
    assert (pings + [true])[|pings|];
  }

  lemma NoLateRun(pings: seq<bool>, length: int, i: int)
    requires i + length > |pings|
    ensures !LongRunStarts(pings, length, i)
  {
  }

  lemma NewRunIff(pings: seq<bool>, good: bool, length: int)
    requires length >= 1
    ensures LongRunStarts(pings + [good], length, |pings| + 1 - length) <==> !good && Trailing(pings, false) + 1 == length
  {
    if good {
      NoNewRun(pings, length);
    } else if Trailing(pings, false) + 1 == length {
      TrailingStartsLongRun(pings, length);
    } else if LongRunStarts(pings + [good], length, |pings| + 1 - length) {
      LongRunTrails(pings, length);
    }
  }

  lemma RunStartsAt(pings: seq<bool>, good: bool, length: int, i: int)
    requires length >= 1
    ensures LongRunStarts(pings + [good], length, i) <==>
            LongRunStarts(pings, length, i) || (!good && Trailing(pings, false) + 1 == length && i == |pings| + 1 - length)
  {
    if i + length <= |pings| {
      OldRuns(pings, good, length, i);
    } else {
      NoLateRun(pings, length, i);
      if i == |pings| + 1 - length {
        NewRunIff(pings, good, length);
      } else {
        NoLateRun(pings + [good], length, i);
      }
    }
  }

  lemma LongRunsAt(pings: seq<bool>, good: bool, length: int, i: int)
    requires length >= 1
    ensures i in LongRuns(pings + [good], length) <==>
            i in LongRuns(pings, length) || (!good && Trailing(pings, false) + 1 == length && i == |pings| + 1 - length)
  {
    RunStartsAt(pings, good, length, i);
    RunStartsInside(pings, length, i);
    RunStartsInside(pings + [good], length, i);
  }

  lemma RunStartsInside(pings: seq<bool>, length: int, i: int)
    requires length >= 1
    ensures i in LongRuns(pings, length) <==> LongRunStarts(pings, length, i)
  {
  }

  lemma WithOneMore<T>(after: set<T>, before: set<T>, added: bool, x: T)
    requires forall i :: i in after <==> i in before || (added && i == x)
    ensures after == before + (if added then {x} else {})
  {
    var both := before + (if added then {x} else {});
    assert after == both;
  }

  lemma LongRunsAppend(pings: seq<bool>, good: bool, length: int)
    requires length >= 1
    ensures LongRuns(pings + [good], length) ==
            LongRuns(pings, length) +
            if !good && Trailing(pings, false) + 1 == length then {|pings| + 1 - length} else {}
  {
    var after, before := LongRuns(pings + [good], length), LongRuns(pings, length);
    var added, x := !good && Trailing(pings, false) + 1 == length, |pings| + 1 - length;
    assert after == before + (if added then {x} else {}) by {
      forall i ensures i in after <==> i in before || (added && i == x) {
        LongRunsAt(pings, good, length, i);
      }
      WithOneMore(after, before, added, x);
    }
  }

  lemma NewRunIsNew(pings: seq<bool>, length: int)
    requires length >= 1
    ensures |pings| + 1 - length !in LongRuns(pings, length)
  {
  }

  lemma BadKeepsPending(pings: seq<bool>, length: int)
    requires length >= 1
    ensures DumpPending(pings + [false], length) <==>
            DumpPending(pings, length) || Trailing(pings, false) + 1 == length
  {
    var more := pings + [false];
    LongRunsAppend(pings, false, length);
    assert forall k :: 0 <= k < |pings| ==> more[k] == pings[k];
    assert forall i :: 0 <= i ==> (NoGoodPair(pings, i) <==> NoGoodPair(more, i)) by {
      forall i | 0 <= i && NoGoodPair(more, i) ensures NoGoodPair(pings, i) {
        forall q {:trigger pings[q]} | i <= q && q + 1 < |pings| ensures !(pings[q] && pings[q + 1]) {
          assert !(more[q] && more[q + 1]);
        }
      }
    }
    if Trailing(pings, false) + 1 == length {
      assert |pings| + 1 - length in LongRuns(more, length);
      assert NoGoodPair(more, |pings| + 1);
    }
  }

  lemma GoodMayEndPending(pings: seq<bool>, length: int)
    requires length >= 1
    ensures DumpPending(pings + [true], length) <==>
            DumpPending(pings, length) && Trailing(pings, true) == 0
  {
    var more := pings + [true];
    LongRunsAppend(pings, true, length);
    var n := |pings|;
    assert forall k :: 0 <= k < n ==> more[k] == pings[k];
    forall i | i in LongRuns(pings, length)
      ensures NoGoodPair(more, i + length) <==> NoGoodPair(pings, i + length) && Trailing(pings, true) == 0
    {
      var e := i + length;
      assert !pings[e - 1];
      if NoGoodPair(more, e) {
        forall q {:trigger pings[q]} | e <= q && q + 1 < n ensures !(pings[q] && pings[q + 1]) {
          assert !(more[q] && more[q + 1]);
        }
        if e <= n - 1 {
          assert more[n] && !more[n - 1];
        }
      }
    }
  }

  // --- The state after any trace ---

  ghost predicate Describes(s: Status, pings: seq<bool>, maxBadPing: nat) {
    && s.badPings == Trailing(pings, false)
    && s.goodPings == Trailing(pings, true)
    && s.recoveries == |LongRuns(pings, maxBadPing)|
    && (s.inRecovery <==> s.badPings >= maxBadPing)
    && (s.online <==> pings != [] && pings[|pings| - 1])
    && (s.dumping <==> DumpPending(pings, maxBadPing))
    && !s.panicked
  }

  lemma NextDescribes(s: Status, pings: seq<bool>, p: Ping, maxBadPing: nat)
    requires maxBadPing >= 1 && Describes(s, pings, maxBadPing)
    requires p.Good? || p.Bad?
    ensures Describes(Next(s, p, maxBadPing), pings + [p.Good?], maxBadPing)
  {
    var good := p.Good?;
    var more := pings + [good];
    assert more[..|more| - 1] == pings;
    LongRunsAppend(pings, good, maxBadPing);
    NewRunIsNew(pings, maxBadPing);
    if good {
      GoodMayEndPending(pings, maxBadPing);
    } else {
      BadKeepsPending(pings, maxBadPing);
    }
  }

  /** For every trace of pings: as many recoveries were started as there are maximal runs
      of at least maxBadPing counted failures; the node is in recovery exactly during such
      a run; it is online exactly when the last counted ping was good; and its requests
      carry the dump flag exactly while no two good pings in a row followed a recovery. */
  lemma {:induction false} StateMeaning(trace: seq<Ping>, maxBadPing: nat)
    requires maxBadPing >= 1 && Survives(trace)
    ensures Describes(Run(trace, maxBadPing), Counted(trace), maxBadPing)
  {
    if trace == [] {
      assert LongRuns([], maxBadPing) == {};
    } else {
      var n := |trace| - 1;
      StateMeaning(trace[..n], maxBadPing);
      if !trace[n].Ignored? {
        NextDescribes(Run(trace[..n], maxBadPing), Counted(trace[..n]), trace[n], maxBadPing);
      } else {
        assert Counted(trace) == Counted(trace[..n]);
      }
    }
  }

  // --- The same from the results of the pings ---

  ghost predicate Says(message: string, text: string) {
    exists i: nat :: Text.OccursAt(message, text, i)
  }

  /** A failure that counts: one with none of the three texts in it. */
  ghost predicate IsCountedFailure(r: Result) {
    && r.Failure?
    && !Says(r.message, "network is unreachable")
    && !Says(r.message, "error while waiting for new LB policy update")
    && !Says(r.message, "deadline exceeded while waiting for connections to become ready")
  }

  ghost predicate IsGoodReply(r: Result) {
    r.Reply? && r.ready
  }

  /** The results that count, in order: true for a reply that is ready, false for a failure. */
  ghost function CountedResults(results: seq<Result>): seq<bool> {
    if results == [] then []
    else
      var n := |results| - 1;
      CountedResults(results[..n]) +
      if IsGoodReply(results[n]) then [true] else if IsCountedFailure(results[n]) then [false] else []
  }

  /** The status text is that of the last reply that was ready. */
  ghost function LastStatus(results: seq<Result>): string {
    if results == [] then ""
    else
      var n := |results| - 1;
      if IsGoodReply(results[n]) then results[n].status else LastStatus(results[..n])
  }

  /** What the pinger takes a result for. */
  lemma PingMeaning(r: Result)
    ensures PingOf(r, EXEMPT_TEXTS).Bad? <==> IsCountedFailure(r)
    ensures PingOf(r, EXEMPT_TEXTS).Ignored? <==> r.Failure? && !IsCountedFailure(r)
    ensures PingOf(r, EXEMPT_TEXTS).Good? <==> IsGoodReply(r)
    ensures IsGoodReply(r) ==> PingOf(r, EXEMPT_TEXTS).status == r.status
    ensures PingOf(r, EXEMPT_TEXTS).Fatal? <==> r.Reply? && !r.ready
  {
    if r.Failure? {
      forall i | 0 <= i < 3 ensures Text.Contains(r.message, EXEMPT_TEXTS[i]) <==> Says(r.message, EXEMPT_TEXTS[i]) {
        Text.ContainsIff(r.message, EXEMPT_TEXTS[i]);
      }
      assert Exempt(r.message, EXEMPT_TEXTS) <==>
             || Text.Contains(r.message, EXEMPT_TEXTS[0]) || Text.Contains(r.message, EXEMPT_TEXTS[1])
             || Text.Contains(r.message, EXEMPT_TEXTS[2]);
    }
  }

  lemma PingsStep(front: seq<Result>, r: Result)
    ensures Pings(front + [r], EXEMPT_TEXTS) == Pings(front, EXEMPT_TEXTS) + [PingOf(r, EXEMPT_TEXTS)]
  {
  }

  lemma {:induction false} CountedPings(results: seq<Result>)
    requires forall k :: 0 <= k < |results| ==> results[k].Failure? || results[k].ready
    ensures Survives(Pings(results, EXEMPT_TEXTS))
    ensures Counted(Pings(results, EXEMPT_TEXTS)) == CountedResults(results)
  {
    if results != [] {
      var n := |results| - 1;
      var front, r := results[..n], results[n];
      assert results == front + [r];
      CountedPings(front);
      PingMeaning(r);
      PingsStep(front, r);
      var trace := Pings(front, EXEMPT_TEXTS);
      assert (trace + [PingOf(r, EXEMPT_TEXTS)])[..n] == trace;
    }
  }

  lemma {:induction false} StatusText(results: seq<Result>, maxBadPing: nat)
    requires forall k :: 0 <= k < |results| ==> results[k].Failure? || results[k].ready
    ensures Run(Pings(results, EXEMPT_TEXTS), maxBadPing).text == LastStatus(results)
  {
    if results != [] {
      var n := |results| - 1;
      var front, r := results[..n], results[n];
      assert results == front + [r];
      StatusText(front, maxBadPing);
      PingMeaning(r);
      PingsStep(front, r);
      var trace := Pings(front, EXEMPT_TEXTS);
      assert (trace + [PingOf(r, EXEMPT_TEXTS)])[..n] == trace;
      CountedPings(front);
      PanicsIff(trace, maxBadPing);
    }
  }

  /** For every sequence of ping results: as many recoveries were started as there are
      maximal runs of at least maxBadPing failures that count, whatever failures with one
      of the three texts come in between; and the node is in recovery, online and dumping
      accordingly. */
  lemma ResultsMeaning(results: seq<Result>, maxBadPing: nat)
    requires maxBadPing >= 1
    requires forall k :: 0 <= k < |results| ==> results[k].Failure? || results[k].ready
    ensures Describes(Run(Pings(results, EXEMPT_TEXTS), maxBadPing), CountedResults(results), maxBadPing)
    ensures Run(Pings(results, EXEMPT_TEXTS), maxBadPing).text == LastStatus(results)
  {
    CountedPings(results);
    StateMeaning(Pings(results, EXEMPT_TEXTS), maxBadPing);
    StatusText(results, maxBadPing);
  }

  /** The monitor panics exactly when a ping was answered without an error and not ready. The
      module's own server never answers so: it sends an error along. */
  lemma {:induction false} PanicsIff(trace: seq<Ping>, maxBadPing: nat)
    ensures Run(trace, maxBadPing).panicked <==> !Survives(trace)
  {
    if trace != [] {
      var n := |trace| - 1;
      PanicsIff(trace[..n], maxBadPing);
      if !Survives(trace) && !trace[n].Fatal? {
        var k :| 0 <= k < |trace| && trace[k].Fatal?;
        assert trace[..n][k] == trace[k];
      }
    }
  }

  /** The check that ControllerPublishVolume makes before it places a server on a node. */
  predicate Admits(s: Status) {
    s.online && !s.inRecovery
  }

  /** Admission reduces to one bit of history, the last counted ping, and agrees with the
      counters; a node in recovery is being dumped, one with two good pings is not. */
  lemma AdmitsIffLastPingGood(trace: seq<Ping>, maxBadPing: nat)
    requires maxBadPing >= 1 && Survives(trace)
    ensures var s := Run(trace, maxBadPing);
            && (Admits(s) <==> Counted(trace) != [] && Counted(trace)[|Counted(trace)| - 1])
            && (Admits(s) ==> s.badPings == 0 && s.goodPings >= 1)
            && (s.inRecovery ==> s.dumping)
            && (s.goodPings >= 2 ==> !s.dumping)
  {
    StateMeaning(trace, maxBadPing);
    var pings := Counted(trace);
    var s := Run(trace, maxBadPing);
    if s.inRecovery {
      TrailingIsRun(pings);
      var i := |pings| - Trailing(pings, false);
      assert i in LongRuns(pings, maxBadPing);
      assert NoGoodPair(pings, i + maxBadPing);
    }
    if s.goodPings >= 2 {
      var n := |pings| - 1;
      assert Trailing(pings, true) == Trailing(pings[..n], true) + 1;
      assert pings[n] && pings[n - 1];
      forall i | i in LongRuns(pings, maxBadPing) ensures !NoGoodPair(pings, i + maxBadPing) {
        assert !pings[i + maxBadPing - 1];
        assert pings[n - 1] && pings[n - 1 + 1];
      }
    }
  }

  // --- The dump handshake ---

  /** The last counted ping, if it was good: the request before it carried the dump flag
      if the flag is set now. */
  lemma {:induction false} LastGoodPing(trace: seq<Ping>, maxBadPing: nat) returns (q: nat)
    requires maxBadPing >= 1 && Survives(trace) && Run(trace, maxBadPing).goodPings >= 1
    ensures q < |trace| && trace[q].Good?
    ensures forall k :: q < k < |trace| ==> trace[k].Ignored?
    ensures Run(trace, maxBadPing).dumping ==> Run(trace[..q], maxBadPing).dumping
  {
    var n := |trace| - 1;
    PanicsIff(trace[..n], maxBadPing);
    if trace[n].Ignored? {
      q := LastGoodPing(trace[..n], maxBadPing);
      assert trace[..n][..q] == trace[..q];
      forall k | q < k < |trace| ensures trace[k].Ignored? {
        assert k < n ==> trace[..n][k] == trace[k];
      }
    } else {
      q := n;
    }
  }

  /** Dumping stops only with a good ping whose request still carried the flag, after
      another good ping whose request did too, with no counted failure in between. */
  lemma DumpStopsAfterTwoGoodPings(trace: seq<Ping>, p: Ping, maxBadPing: nat)
    requires maxBadPing >= 1 && Survives(trace + [p])
    requires Run(trace, maxBadPing).dumping && !Run(trace + [p], maxBadPing).dumping
    ensures p.Good?
    ensures |Requests(trace + [p], maxBadPing)| == |trace| + 1 && Requests(trace + [p], maxBadPing)[|trace|]
    ensures exists q :: && 0 <= q < |trace| && trace[q].Good?
                        && Requests(trace + [p], maxBadPing)[q]
                        && forall k :: q < k < |trace| ==> trace[k].Ignored?
  {
    assert (trace + [p])[..|trace|] == trace;
    assert (trace + [p])[|trace|] == p;
    assert Survives(trace) by {
      forall k | 0 <= k < |trace| ensures !trace[k].Fatal? {
        assert trace[k] == (trace + [p])[k];
      }
    }
    PanicsIff(trace, maxBadPing);
    RequestMeaning(trace + [p], maxBadPing, |trace|);
    var q := LastGoodPing(trace, maxBadPing);
    RequestMeaning(trace + [p], maxBadPing, q);
    assert (trace + [p])[..q] == trace[..q];
  }

  /** The first good ping after a recovery lets volumes be published on a node that the
      next request still tells to drop its exports. */
  lemma AdmittedWhileDumping(trace: seq<Ping>, p: Ping, maxBadPing: nat)
    requires maxBadPing >= 1 && Survives(trace) && p.Good?
    requires Run(trace, maxBadPing).inRecovery
    ensures Admits(Run(trace + [p], maxBadPing)) && Run(trace + [p], maxBadPing).dumping
  {
    assert (trace + [p])[..|trace|] == trace;
    AdmitsIffLastPingGood(trace, maxBadPing);
    StateMeaning(trace, maxBadPing);
  }

  // --- Counting exports before a recovery ---

  /** A monitored node as the collection of counts sees it. */
  datatype Peer = Peer(name: string, inRecovery: bool, exports: Option<seq<string>>)

  predicate Usable(p: Peer) {
    p.exports.Some? && !p.inRecovery
  }

  /** The counts hold exactly the nodes that answered and are not in recovery, each with
      the number of exports it reported. */
  method GetNodeExportCounts(peers: seq<Peer>) returns (counts: map<string, int>)
    ensures forall n :: n in counts ==>
              exists i :: 0 <= i < |peers| && Usable(peers[i]) && peers[i].name == n && counts[n] == |peers[i].exports.value|
    ensures forall i :: 0 <= i < |peers| && Usable(peers[i]) ==> peers[i].name in counts
  {
    counts := map[];
    var k := 0;
    while k < |peers|
      invariant 0 <= k <= |peers|
      invariant forall n :: n in counts ==>
                  exists i :: 0 <= i < k && Usable(peers[i]) && peers[i].name == n && counts[n] == |peers[i].exports.value|
      invariant forall i :: 0 <= i < k && Usable(peers[i]) ==> peers[i].name in counts
    {
      if peers[k].exports.Some? && !peers[k].inRecovery {
        counts := counts[peers[k].name := |peers[k].exports.value|];
      }
      k := k + 1;
    }
  }

  /** Every reservation made from such counts, if there are any, takes a node that answered
      and was not in recovery; so a node that is in recovery, and shares its name with no
      other, is never taken. */
  lemma RecoveryAvoidsFailedNode(peers: seq<Peer>, counts: map<string, int>, picks: seq<string>, failed: nat)
    requires forall n :: n in counts ==>
               exists i :: 0 <= i < |peers| && Usable(peers[i]) && peers[i].name == n && counts[n] == |peers[i].exports.value|
    requires Reservations.Roomy(counts, |picks|) && Reservations.Run(counts, picks)
    requires failed < |peers| && peers[failed].inRecovery
    requires forall i :: 0 <= i < |peers| && peers[i].name == peers[failed].name ==> i == failed
    ensures forall k :: 0 <= k < |picks| ==>
              && picks[k] != peers[failed].name
              && exists i :: 0 <= i < |peers| && Usable(peers[i]) && peers[i].name == picks[k]
  {
    Reservations.RunTotals(counts, picks);
  }
}

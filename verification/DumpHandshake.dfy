/** The monitor and the node's server together: what it means that the monitor stops asking a
    node to drop its exports. */
module DumpHandshake {
  import opened Text
  import opened ExportsText
  import opened ExportTable
  import opened NfsServer
  import opened DumpLaws
  import opened DumpSweeps
  import NodeMonitor

  /** What the monitor gets for a ping that the server answered: a reply that is not ready,
      or cut short, comes with an error, and an error takes the place of the reply. */
  function Answered(d: Dump, message: string): NodeMonitor.Result {
    if d.ending.Going? && d.ready then NodeMonitor.Reply(true, "") else NodeMonitor.Failure(message)
  }

  ghost function Served(s: Server, root: string, dumpAll: bool, read: Fault, io: nat -> LineIo,
                        lookup: string -> Lookup, unmounts: string -> bool): Dump
  {
    if dumpAll then Pinged(s, root, read, io, lookup, unmounts) else Dump(s, true, 0, Going)
  }

  /** So the module's own server never makes the monitor panic: over any trace of pings that
      failed or that it answered, the monitor goes on. */
  lemma ServerNeverPanics(results: seq<NodeMonitor.Result>, exempt: seq<string>, maxBadPing: nat)
    requires forall i :: 0 <= i < |results| ==>
               results[i].Failure? || exists d, message :: results[i] == Answered(d, message)
    ensures !NodeMonitor.Run(NodeMonitor.Pings(results, exempt), maxBadPing).panicked
  {
    NodeMonitor.PanicsIff(NodeMonitor.Pings(results, exempt), maxBadPing);
  }

  lemma ReadySweepLeavesNothing(start: Server, root: string, lines: seq<string>, l: string, io: nat -> LineIo,
                                lookup: string -> Lookup, unmounts: string -> bool)
    requires AllReadable(root, lines) && ManagedOnce(root, lines) && TableHas(start.table, lines)
    requires FaultFree(io) && forall l :: l in lines && Managed(root, l) ==> !lookup(NameOf(root, l)).Missing?
    requires Pinged(start, root, NoFault, io, lookup, unmounts).ready
    requires l in ScanLines(Pinged(start, root, NoFault, io, lookup, unmounts).server.table.text)
    ensures l in lines && !Sweeps(root, l, lookup)
  {
    var left := ScanLines(Pinged(start, root, NoFault, io, lookup, unmounts).server.table.text);
    LineIsKeptIff(start, root, lines, l, io, lookup, unmounts);
    assert l in multiset(left);
    assert l in multiset(lines);
    MatchingFacts(lines, root);
    SelectedLines(root, Matching(lines, root), lookup, unmounts);
  }

  /** When the monitor stops asking a node to drop its exports, the ping that made it stop
      was answered by a dump after which no line is left whose Service could be found, in
      any table and whatever names extend each other, if that dump had no faults. */
  lemma StoppedDumpLeavesNothing(trace: seq<NodeMonitor.Ping>, exempt: seq<string>, maxBadPing: nat, message: string,
                                 start: Server, root: string, lines: seq<string>, io: nat -> LineIo,
                                 lookup: string -> Lookup, unmounts: string -> bool)
    requires maxBadPing >= 1 && NodeMonitor.Survives(trace) && FaultFree(io)
    requires AllReadable(root, lines) && ManagedOnce(root, lines) && TableHas(start.table, lines)
    requires forall l :: l in lines && Managed(root, l) ==> !lookup(NameOf(root, l)).Missing?
    ensures var dumping := NodeMonitor.Run(trace, maxBadPing).dumping;
            var d := Served(start, root, dumping, NoFault, io, lookup, unmounts);
            var p := NodeMonitor.PingOf(Answered(d, message), exempt);
            dumping && !NodeMonitor.Run(trace + [p], maxBadPing).dumping ==>
              forall l :: l in ScanLines(d.server.table.text) ==> l in lines && !Sweeps(root, l, lookup)
  {
    var dumping := NodeMonitor.Run(trace, maxBadPing).dumping;
    var d := Served(start, root, dumping, NoFault, io, lookup, unmounts);
    var p := NodeMonitor.PingOf(Answered(d, message), exempt);
    if dumping && !NodeMonitor.Run(trace + [p], maxBadPing).dumping {
      NodeMonitor.DumpStopsAfterTwoGoodPings(trace, p, maxBadPing);
      forall l | l in ScanLines(d.server.table.text) ensures l in lines && !Sweeps(root, l, lookup) {
        ReadySweepLeavesNothing(start, root, lines, l, io, lookup, unmounts);
      }
    }
  }
}

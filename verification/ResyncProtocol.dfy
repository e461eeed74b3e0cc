/** The skipping of redundant `exportfs -r` calls as a protocol: any number of handlers
    interleave their edits and resyncs, each an atomic step under the exports lock
    (nfs/exports.go), and store generations outside it (nfs/nfs_service.go). */
module ResyncProtocol {
  import opened ExportsText
  import opened ExportTable

  datatype Step =
    | Add(directory: string, options: string, fault: Fault)
    | Delete(directory: string, fault: Fault)
    | Resync(generation: int, attempts: Attempts)
    | WriteBack(generation: int)  // a handler stores a generation it was given

  ghost function Next(t: Table, s: Step): Table {
    match s
    case Add(directory, options, fault) => Added(t, directory, options, fault).0
    case Delete(directory, fault) => Deleted(t, directory, fault).0
    case Resync(generation, attempts) => Resynced(t, generation, attempts).0
    case WriteBack(generation) => t.(generation := generation)
  }

  ghost function Run(t: Table, steps: seq<Step>): Table
    decreases |steps|
  {
    if steps == [] then t else Run(Next(t, steps[0]), steps[1..])
  }

  /** The table with its history: the text at every generation, and the generation that
      was current when the kernel last loaded the file. */
  datatype World = World(table: Table, past: map<int, string>, loaded: int)

  ghost predicate Loads(t: Table, s: Step) {
    s.Resync? && !Skips(t, s.generation) && s.attempts.Succeed()
  }

  ghost function Evolve(w: World, s: Step): World {
    var t := Next(w.table, s);
    World(t,
          if t.generation > w.table.generation then w.past[t.generation := t.text] else w.past,
          if Loads(w.table, s) then w.table.generation else w.loaded)
  }

  ghost function EvolveAll(w: World, steps: seq<Step>): World
    decreases |steps|
  {
    if steps == [] then w else EvolveAll(Evolve(w, steps[0]), steps[1..])
  }

  // --- The steps under which the protocol holds ---

  /** A rewrite that fails half-way leaves a file that is neither the old nor the new one. */
  ghost predicate Torn(t: Table, s: Step) {
    s.Delete? && s.fault.WriteFails? && s.fault.after < |Without(TrimmedLines(t.text), s.directory)|
  }

  /** `top` is the largest generation returned so far. A resync asks for a generation that
      was returned; a stored generation is the current one; writes are all or nothing. */
  ghost predicate Orderly(t: Table, top: int, s: Step) {
    && !Torn(t, s)
    && (s.Resync? ==> s.generation <= top)
    && (s.WriteBack? ==> s.generation == t.generation)
  }

  function Max(a: int, b: int): int {
    if a < b then b else a
  }

  ghost predicate OrderlyRun(t: Table, top: int, steps: seq<Step>)
    decreases |steps|
  {
    steps == [] ||
    (Orderly(t, top, steps[0]) &&
     OrderlyRun(Next(t, steps[0]), Max(top, Next(t, steps[0]).generation), steps[1..]))
  }

  // --- The invariant ---

  ghost predicate Coherent(w: World) {
    && w.table.synced <= w.loaded <= w.table.generation
    && w.table.generation in w.past && w.past[w.table.generation] == w.table.text
    && w.loaded in w.past && w.past[w.loaded] == w.table.kernel
    && forall g :: g in w.past ==> g <= w.table.generation
  }

  /** Nothing goes backwards and history is not rewritten. */
  ghost predicate Forward(v: World, w: World) {
    && v.table.synced <= w.table.synced
    && v.loaded <= w.loaded
    && v.table.generation <= w.table.generation
    && forall g :: g in v.past ==> g in w.past && w.past[g] == v.past[g]
  }

  lemma StartsCoherent(text: string)
    ensures Coherent(World(Table(text, 0, 0, 0, text), map[0 := text], 0))
  {
  }

  lemma StepKeepsCoherence(w: World, s: Step)
    requires Coherent(w) && Orderly(w.table, w.table.generation, s)
    ensures Coherent(Evolve(w, s)) && Forward(w, Evolve(w, s))
  {
  }

  /** Over every orderly interleaving the synced generation is at most the one the kernel
      loaded, that is at most the current one, both copies are the texts history has for
      them, and no counter ever falls. */
  lemma {:induction false} RunKeepsCoherence(w: World, steps: seq<Step>)
    requires Coherent(w) && OrderlyRun(w.table, w.table.generation, steps)
    ensures Coherent(EvolveAll(w, steps)) && Forward(w, EvolveAll(w, steps))
    ensures EvolveAll(w, steps).table == Run(w.table, steps)
    decreases |steps|
  {
    if steps != [] {
      StepKeepsCoherence(w, steps[0]);
      RunKeepsCoherence(Evolve(w, steps[0]), steps[1..]);
    }
  }

  // --- What a resync promises ---

  /** After any orderly run, a resync of a returned generation that reports success, be it
      run or skipped, leaves the kernel with the file as it was at that generation or
      later. If all generations are synced, the kernel has the file as it is. */
  lemma ResyncDelivers(w: World, steps: seq<Step>, g: int, attempts: Attempts)
    requires Coherent(w) && OrderlyRun(w.table, w.table.generation, steps)
    requires g <= EvolveAll(w, steps).table.generation
    ensures var before := EvolveAll(w, steps);
            var after := Evolve(before, Resync(g, attempts));
            && (Resynced(before.table, g, attempts).1 ==>
                  g <= after.loaded && after.loaded in after.past
                  && after.table.kernel == after.past[after.loaded])
            && (after.table.synced == after.table.generation ==> after.table.kernel == after.table.text)
  {
    RunKeepsCoherence(w, steps);
    StepKeepsCoherence(EvolveAll(w, steps), Resync(g, attempts));
  }

  /** Once a resync of g succeeded, whatever other handlers do, a later resync of g runs
      no `exportfs`. */
  lemma NoSecondExportfs(w: World, g: int, attempts: Attempts, steps: seq<Step>)
    requires Coherent(w) && g <= w.table.generation && Resynced(w.table, g, attempts).1
    requires OrderlyRun(Resynced(w.table, g, attempts).0, w.table.generation, steps)
    ensures Skips(Run(Resynced(w.table, g, attempts).0, steps), g)
  {
    StepKeepsCoherence(w, Resync(g, attempts));
    RunKeepsCoherence(Evolve(w, Resync(g, attempts)), steps);
  }

  // --- When a handler may trust its own resync ---

  ghost function Change(t: Table, s: Step): (Table, Reply)
    requires s.Add? || s.Delete?
  {
    if s.Add? then Added(t, s.directory, s.options, s.fault) else Deleted(t, s.directory, s.fault)
  }

  /** A handler that makes a change and at once resyncs the generation it got may take
      success to mean that the kernel has the file. */
  ghost predicate Trustworthy(t: Table) {
    forall s: Step, attempts ::
      (s.Add? || s.Delete?) && Change(t, s).1.ok
      && Resynced(Change(t, s).0, Change(t, s).1.generation, attempts).1 ==>
        var after := Resynced(Change(t, s).0, Change(t, s).1.generation, attempts).0;
        after.kernel == after.text
  }

  lemma TrustworthyIff(t: Table)
    ensures Trustworthy(t) <==> t.synced <= t.generation
  {
    if t.synced > t.generation {
      var one := SomeUnlisted(t.text);
      var added := Change(t, Add(one, "", NoFault)).0;
      var two := Change(t, Add(one, " ", NoFault)).0;
      assert |added.text| != |two.text|;
      var s := Add(one, if t.kernel == added.text then " " else "", NoFault);
      var attempts := Attempts(true, true);
      var changed := Change(t, s);
      assert changed.1.ok && Resynced(changed.0, changed.1.generation, attempts).1;
      var after := Resynced(changed.0, changed.1.generation, attempts).0;
      assert after.kernel != after.text;
    }
  }

  ghost predicate StaysTrustworthy(t: Table, top: int) {
    forall steps :: OrderlyRun(t, top, steps) ==> Trustworthy(Run(t, steps))
  }

  /** The package stores returned generations outside the lock. From a coherent state,
      such a store keeps every handler's resync trustworthy, over all orderly
      continuations, exactly when no other edit came in between. */
  lemma WriteBackIff(w: World, g: int)
    requires Coherent(w) && g <= w.table.generation
    ensures StaysTrustworthy(w.table.(generation := g), w.table.generation) <==> g == w.table.generation
  {
    var stored := w.table.(generation := g);
    var top := w.table.generation;
    if g == top {
      forall steps | OrderlyRun(stored, top, steps) ensures Trustworthy(Run(stored, steps)) {
        assert stored == w.table;
        RunKeepsCoherence(w, steps);
        TrustworthyIff(Run(stored, steps));
      }
    } else {
      // Another handler now resyncs the generation it got before the store.
      var steps := [Resync(top, Attempts(true, true))];
      var t := Next(stored, steps[0]);
      assert Run(stored, steps) == t by {
        assert steps[1..] == [];
        assert Run(t, []) == t;
      }
      assert OrderlyRun(stored, top, steps);
      TrustworthyIff(t);
    }
  }

  /** A torn rewrite has lost at least one line. */
  lemma TornLosesALine(t: Table, s: Step)
    requires Torn(t, s)
    ensures |TrimmedLines(Next(t, s).text)| < |TrimmedLines(t.text)|
  {
    var kept := Without(TrimmedLines(t.text), s.directory);
    var written := kept[..s.fault.after];
    TrimmedLinesFacts(t.text);
    WithoutFacts(TrimmedLines(t.text), s.directory);
    forall l | l in written ensures CleanLine(l) {
      assert l in kept;
    }
    ReadBack(written);
  }

  /** A deletion that fails is not counted as a change: with all generations synced the
      counters go on saying that the kernel has the file. That is true exactly if the
      rewrite was not torn. A later change with its resync brings the kernel up to date all
      the same. */
  lemma FailedDeleteIff(w: World, s: Step)
    requires Coherent(w) && w.table.synced == w.table.generation
    requires s.Delete? && !Change(w.table, s).1.ok
    ensures var t := Next(w.table, s);
            && t.synced == t.generation
            && (t.kernel == t.text <==> !Torn(w.table, s))
            && Trustworthy(t)
  {
    TrustworthyIff(Next(w.table, s));
    if Torn(w.table, s) {
      TornLosesALine(w.table, s);
    }
  }
}

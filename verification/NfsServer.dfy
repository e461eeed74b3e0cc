/** The export server of a node (nfs/nfs_service.go): exporting and unexporting a volume,
    and dropping all exports when a ping asks for it. */
module NfsServer {
  import opened Wrappers
  import opened Text
  import opened ExportsText
  import opened ExportTable
  import opened ServiceTable
  import ServiceNames
  import Paths

  const MAX_UNMOUNT_ATTEMPTS := 10
  const MAX_GET_ATTEMPTS := 3

  /** The table and the paths at which volumes are mounted. */
  datatype Server = Server(table: Table, mounts: set<string>)

  // --- Exporting ---

  datatype MountOutcome = Mounted(path: string) | MountFails | TimesOut

  /** The outcomes of the external calls of one ExportNfsVolume. */
  datatype ExportIo = ExportIo(check: Fault, mount: MountOutcome, chown: bool, chmod: bool, list: bool,
                               add: Fault, attempts: Attempts)

  function StagingPath(root: string, volumeId: string): string {
    ServicePath(root, ServiceNames.VolumeIDToServiceName(volumeId))
  }

  /** The volume is mounted and its export line is found: nothing is left to do. */
  ghost predicate AlreadyExported(s: Server, root: string, volumeId: string, check: Fault) {
    var path := StagingPath(root, volumeId);
    path in s.mounts && !check.OpenFails? && Listed(s.table.text, path + "/")
  }

  ghost function Exported(s: Server, root: string, options: string, volumeId: string, io: ExportIo): (Server, bool) {
    if AlreadyExported(s, root, volumeId, io.check) then (s, true)
    else if !io.mount.Mounted? then (s, false)
    else
      var mounted := s.(mounts := s.mounts + {io.mount.path});
      if !io.chown || !io.chmod || !io.list then (mounted, false)
      else
        var (table, r) := Added(s.table, io.mount.path + "/", options, io.add);
        if !r.ok then (mounted, false)
        else
          var (synced, ok) := Resynced(table, r.generation, io.attempts);
          (mounted.(table := synced), ok)
  }

  // --- Unexporting ---

  /** `driver(k)` is the outcome of the k-th unmount call to the array driver. */
  datatype UnexportIo = UnexportIo(delete: Fault, attempts: Attempts, driver: nat -> bool)

  function ExportPath(root: string, volumeId: string, serviceName: string): string {
    ReplaceDoubleSlash(ServicePath(root, if serviceName != "" then serviceName else volumeId))
  }

  function ReplaceDoubleSlash(s: string): string {
    if |s| < 2 then s
    else if s[0] == '/' && s[1] == '/' then "/" + ReplaceDoubleSlash(s[2..])
    else [s[0]] + ReplaceDoubleSlash(s[1..])
  }

  function UnmountMessage(volumeId: string): string {
    "could not unmount volume " + volumeId
  }

  /** The error text of a failed unmount is taken to say that nothing was mounted. */
  predicate TakenAsUnmounted(message: string) {
    Contains(message, "not mounted") || Contains(message, "no such file or directory")
  }

  ghost predicate Succeeds(driver: nat -> bool, from: nat, to: nat) {
    exists k: nat :: from <= k < to && driver(k)
  }

  /** The line is deleted and the deletion resynced, or an error is returned. Then up to
      thirty unmount calls are made, ten if the error text is taken for a success. */
  ghost predicate Unexports(before: Server, root: string, volumeId: string, serviceName: string, io: UnexportIo,
                            after: Server, ok: bool)
  {
    var path := ExportPath(root, volumeId, serviceName);
    var (deleted, r) := Deleted(before.table, path, io.delete);
    var (synced, done) := Resynced(deleted, r.generation, io.attempts);
    var taken := TakenAsUnmounted(UnmountMessage(volumeId));
    if !r.ok then after == before.(table := deleted) && !ok
    else if !done then after == before.(table := synced) && !ok
    else
      && after.table == synced.(saved := after.table.saved)
      && (ok <==> taken || Succeeds(io.driver, 0, 3 * MAX_UNMOUNT_ATTEMPTS))
      && after.mounts ==
         if Succeeds(io.driver, 0, (if taken then 1 else 3) * MAX_UNMOUNT_ATTEMPTS)
         then before.mounts - {path} else before.mounts
  }

  // --- Dumping ---

  /** What looking up the Service of an export gives: its annotation, an error or no
      annotation, or neither a Service nor an error. The annotation goes to the array driver
      alone. */
  datatype Lookup = Resolved | Unresolved | Missing

  /** The outcomes of the file edits and resyncs for one line of a dump. */
  datatype LineIo = LineIo(delete: Fault, first: Attempts, add: Fault, second: Attempts)

  datatype Ending = Going | Aborted | Crashed

  datatype Dump = Dump(server: Server, ready: bool, removed: int, ending: Ending)

  function DirectoryOf(line: string): string {
    Paths.Clean(Split(line, ' ')[0])
  }

  function NameOf(root: string, line: string): string {
    Paths.ServiceOf(root, DirectoryOf(line))
  }

  ghost function DumpLine(d: Dump, root: string, line: string, io: LineIo,
                          lookup: string -> Lookup, unmounts: string -> bool): Dump
  {
    if !d.ending.Going? then d
    else
      var parts := Split(line, ' ');
      var name := NameOf(root, line);
      match lookup(name)
      case Missing => d.(ending := Crashed)
      case Unresolved => d
      case Resolved =>
        var (deleted, r) := Deleted(d.server.table, DirectoryOf(line), io.delete);
        if !r.ok then d.(server := d.server.(table := deleted))
        else
          var (synced, ok) := Resynced(deleted, r.generation, io.first);
          if !ok then d.(server := d.server.(table := synced), removed := d.removed + 1, ending := Aborted)
          else if unmounts(name) then
            d.(server := Server(synced, d.server.mounts - {ServicePath(root, name)}), removed := d.removed + 1)
          else
            var (added, a) := Added(synced, parts[0], Join(parts[1..], ' '), io.add);
            var back := Resynced(added, a.generation, io.second).0;
            d.(server := d.server.(table := back), ready := false)
  }

  ghost function DumpLines(d: Dump, root: string, lines: seq<string>, io: nat -> LineIo,
                           lookup: string -> Lookup, unmounts: string -> bool): Dump
  {
    if lines == [] then d
    else
      var n := |lines| - 1;
      DumpLine(DumpLines(d, root, lines[..n], io, lookup, unmounts), root, lines[n], io(n), lookup, unmounts)
  }

  ghost function Pinged(s: Server, root: string, read: Fault, io: nat -> LineIo,
                        lookup: string -> Lookup, unmounts: string -> bool): Dump
  {
    var start := Dump(s, true, 0, Going);
    if read.OpenFails? then start.(ending := Aborted)
    else DumpLines(start, root, Matching(ScanLines(s.table.text), root), io, lookup, unmounts)
  }

  // --- Looking up a Service ---

  datatype Answer = Found(annotation: Option<string>) | NotFound | OtherError

  /** What GetServiceContent returns: a Service, an error, or, because the error of the last
      attempt was shadowed, neither. */
  datatype Content = Loaded(annotation: Option<string>) | Error | Nothing

  /** What a number of attempts give: the first that finds a Service, or finds that there is
      none, decides. */
  function ContentOf(answer: nat -> Answer, from: nat): Content
    decreases MAX_GET_ATTEMPTS - from
  {
    if from >= MAX_GET_ATTEMPTS then Nothing
    else match answer(from)
      case Found(annotation) => Loaded(annotation)
      case NotFound => Error
      case OtherError => ContentOf(answer, from + 1)
  }

  /** What the dump makes of it. */
  function LookupOf(content: Content): Lookup {
    match content
    case Loaded(annotation) => if annotation.Some? then Resolved else Unresolved
    case Error => Unresolved
    case Nothing => Missing
  }

  /** Which volumes a dump unmounts, given the outcomes of the driver's calls for each. */
  ghost function Unmounts(drivers: string -> (nat -> bool)): string -> bool {
    name => Succeeds(drivers(name), 0, MAX_UNMOUNT_ATTEMPTS)
  }

  function Lookups(answers: string -> (nat -> Answer)): string -> Lookup {
    name => LookupOf(ContentOf(answers(name), 0))
  }

  lemma {:induction false} NothingIff(answer: nat -> Answer, from: nat)
    ensures ContentOf(answer, from).Nothing? <==> forall k: nat :: from <= k < MAX_GET_ATTEMPTS ==> answer(k).OtherError?
    decreases MAX_GET_ATTEMPTS - from
  {
    if from < MAX_GET_ATTEMPTS {
      NothingIff(answer, from + 1);
    }
  }

  /** A lookup gives neither a Service nor an error exactly if each attempt failed, and not
      because there is no such Service. */
  lemma MissingIff(answers: string -> (nat -> Answer), name: string)
    ensures Lookups(answers)(name).Missing? <==> forall k: nat :: k < MAX_GET_ATTEMPTS ==> answers(name)(k).OtherError?
  {
    NothingIff(answers(name), 0);
  }

  method GetServiceContent(answer: nat -> Answer) returns (content: Content)
    ensures content == ContentOf(answer, 0)
    ensures content.Nothing? <==> forall k: nat :: k < MAX_GET_ATTEMPTS ==> answer(k).OtherError?
    ensures !content.Nothing? ==>
              exists k: nat ::
                && k < MAX_GET_ATTEMPTS && (forall j: nat :: j < k ==> answer(j).OtherError?)
                && content == if answer(k).NotFound? then Error else if answer(k).Found? then Loaded(answer(k).annotation) else Nothing
  {
    var k: nat := 0;
    while k < MAX_GET_ATTEMPTS
      invariant k <= MAX_GET_ATTEMPTS
      invariant forall j: nat :: j < k ==> answer(j).OtherError?
      invariant ContentOf(answer, 0) == ContentOf(answer, k)
    {
      match answer(k)
      case Found(annotation) => return Loaded(annotation);
      case NotFound => return Error;
      case OtherError =>
      k := k + 1;
    }
    return Nothing;
  }

  // --- The dump loop, line by line ---

  lemma DumpLinesStep(d: Dump, root: string, front: seq<string>, e: string, io: nat -> LineIo,
                      lookup: string -> Lookup, unmounts: string -> bool)
    ensures DumpLines(d, root, front + [e], io, lookup, unmounts)
            == DumpLine(DumpLines(d, root, front, io, lookup, unmounts), root, e, io(|front|), lookup, unmounts)
  {
    assert (front + [e])[..|front|] == front;
  }

  lemma DumpLinesNext(d: Dump, root: string, lines: seq<string>, i: nat, io: nat -> LineIo,
                      lookup: string -> Lookup, unmounts: string -> bool)
    requires i < |lines|
    ensures DumpLines(d, root, lines[..i + 1], io, lookup, unmounts)
            == DumpLine(DumpLines(d, root, lines[..i], io, lookup, unmounts), root, lines[i], io(i), lookup, unmounts)
  {
    assert lines[..i + 1] == lines[..i] + [lines[i]];
    DumpLinesStep(d, root, lines[..i], lines[i], io, lookup, unmounts);
  }

  lemma {:induction false} EndedDumpStays(d: Dump, root: string, lines: seq<string>, i: nat, io: nat -> LineIo,
                                          lookup: string -> Lookup, unmounts: string -> bool)
    requires i <= |lines|
    requires i < |lines| ==> !DumpLines(d, root, lines[..i], io, lookup, unmounts).ending.Going?
    ensures DumpLines(d, root, lines, io, lookup, unmounts) == DumpLines(d, root, lines[..i], io, lookup, unmounts)
  {
    if i < |lines| {
      var n := |lines| - 1;
      assert lines[..n][..i] == lines[..i];
      EndedDumpStays(d, root, lines[..n], i, io, lookup, unmounts);
    } else {
      assert lines[..i] == lines;
    }
  }

  class NfsServer {
    const root: string
    const file: ExportsFile
    var mounts: set<string>

    ghost function View(): Server
      reads this, file
    {
      Server(file.View(), mounts)
    }

    constructor (root: string, file: ExportsFile)
      ensures View() == Server(file.View(), {}) && this.root == root && this.file == file
    {
      this.root, this.file, mounts := root, file, {};
    }

    method ExportNfsVolume(volumeId: string, options: string, io: ExportIo) returns (ok: bool)
      modifies this, file
      ensures (View(), ok) == Exported(old(View()), root, options, volumeId, io)
    {
      var stagingPath := root + "/" + ServiceNames.VolumeIDToServiceName(volumeId);
      var exists_, _ := file.CheckExport(stagingPath + "/", io.check);
      if stagingPath in mounts && exists_ {
        return true;
      }
      if !io.mount.Mounted? {
        return false;
      }
      var path := io.mount.path;
      mounts := mounts + {path};
      if !io.chown || !io.chmod || !io.list {
        return false;
      }
      var r := file.AddExport(path + "/", options, io.add);
      file.generation := r.generation;
      if !r.ok {
        return false;
      }
      var runs;
      ok, runs := file.ResyncNFSMountd(file.generation, io.attempts);
    }

    /** `calls` counts the unmount calls to the driver; those before had numbers below `from`. */
    method UnmountVolume(path: string, driver: nat -> bool, from: nat) returns (ok: bool, calls: nat)
      modifies this`mounts
      ensures ok <==> Succeeds(driver, from, from + MAX_UNMOUNT_ATTEMPTS)
      ensures calls <= MAX_UNMOUNT_ATTEMPTS
      ensures if ok then calls >= 1 && driver(from + calls - 1) && !Succeeds(driver, from, from + calls - 1)
              else calls == MAX_UNMOUNT_ATTEMPTS
      ensures mounts == if ok then old(mounts) - {path} else old(mounts)
    {
      var i := 0;
      while i < MAX_UNMOUNT_ATTEMPTS
        invariant 0 <= i <= MAX_UNMOUNT_ATTEMPTS
        invariant !Succeeds(driver, from, from + i)
        invariant mounts == old(mounts)
      {
        if driver(from + i) {
          mounts := mounts - {path};
          return true, i + 1;
        }
        i := i + 1;
      }
      return false, i;
    }

    /** Up to three rounds of unmounting, each but for the last success followed by a resync
        of a generation that is already synced. */
    method UnmountInRounds(volumeId: string, path: string, generation: int, io: UnexportIo)
      returns (ok: bool, calls: nat, reruns: nat)
      requires Skips(file.View(), generation)
      modifies this, file
      ensures file.View() == old(file.View()).(saved := file.savedUpdates)
      ensures var taken := TakenAsUnmounted(UnmountMessage(volumeId));
              var unmounted := Succeeds(io.driver, 0, (if taken then 1 else 3) * MAX_UNMOUNT_ATTEMPTS);
              && (ok <==> taken || unmounted)
              && mounts == if unmounted then old(mounts) - {path} else old(mounts)
      ensures calls <= 3 * MAX_UNMOUNT_ATTEMPTS && reruns == 0
    {
      calls, reruns := 0, 0;
      var taken := TakenAsUnmounted(UnmountMessage(volumeId));
      var i := 1;
      while i <= 3
        invariant 1 <= i <= 4
        invariant calls == (i - 1) * MAX_UNMOUNT_ATTEMPTS && reruns == 0
        invariant !Succeeds(io.driver, 0, calls)
        invariant mounts == old(mounts)
        invariant file.View() == old(file.View()).(saved := file.savedUpdates)
        invariant i > 1 ==> !taken
      {
        var unmounted, n := UnmountVolume(path, io.driver, calls);
        calls := calls + n;
        if unmounted {
          assert io.driver(calls - 1);
          return true, calls, reruns;
        }
        if taken {
          return true, calls, reruns;
        }
        var done, runs := file.ResyncNFSMountd(generation, io.attempts);
        reruns := reruns + runs;
        if !done {
          return false, calls, reruns;
        }
        i := i + 1;
      }
      return false, calls, reruns;
    }

    /** The export is deleted and resynced once; then the volume is unmounted. `calls` and
        `reruns` count the unmount calls to the driver and the runs of `exportfs` after the
        first resync succeeded. */
    method UnexportNfsVolume(volumeId: string, serviceName: string, io: UnexportIo)
      returns (ok: bool, calls: nat, reruns: nat)
      modifies this, file
      ensures Unexports(old(View()), root, volumeId, serviceName, io, View(), ok)
      ensures calls <= 3 * MAX_UNMOUNT_ATTEMPTS
      ensures reruns == 0
    {
      var exportPath := ReplaceDoubleSlash(root + "/" + (if serviceName != "" then serviceName else volumeId));
      var r := file.DeleteExport(exportPath, io.delete);
      if !r.ok {
        return false, 0, 0;
      }
      var generation := r.generation;
      var done, runs := file.ResyncNFSMountd(generation, io.attempts);
      if !done {
        return false, 0, 0;
      }
      ok, calls, reruns := UnmountInRounds(volumeId, exportPath, generation, io);
      assert Succeeds(io.driver, 0, MAX_UNMOUNT_ATTEMPTS) ==> Succeeds(io.driver, 0, 3 * MAX_UNMOUNT_ATTEMPTS);
    }

    /** Answers a ping; with `dumpAll`, first unexports and unmounts every volume whose
        Service can be looked up. `ending` is Aborted if an error ended the dump early. */
    method Ping(dumpAll: bool, read: Fault, io: nat -> LineIo, answers: string -> (nat -> Answer), drivers: string -> (nat -> bool))
      returns (ready: bool, removed: int, ending: Ending)
      modifies this, file
      ensures !dumpAll ==> View() == old(View()) && ready && removed == 0 && ending == Going
      ensures dumpAll ==> Dump(View(), ready, removed, ending) == Pinged(old(View()), root, read, io, Lookups(answers), Unmounts(drivers))
    {
      ready, removed, ending := true, 0, Going;
      if !dumpAll {
        return;
      }
      var found := file.GetExports(root, read);
      if found.None? {
        ending := Aborted;
        return;
      }
      ready, removed, ending := DumpExports(found.value, io, answers, drivers);
    }

    /** The dump loop. */
    method DumpExports(exports: seq<string>, io: nat -> LineIo, answers: string -> (nat -> Answer), drivers: string -> (nat -> bool))
      returns (ready: bool, removed: int, ending: Ending)
      modifies this, file
      ensures Dump(View(), ready, removed, ending)
              == DumpLines(Dump(old(View()), true, 0, Going), root, exports, io, Lookups(answers), Unmounts(drivers))
    {
      ready, removed, ending := true, 0, Going;
      ghost var start := Dump(View(), true, 0, Going);
      var i := 0;
      while i < |exports| && ending.Going?
        invariant 0 <= i <= |exports|
        invariant Dump(View(), ready, removed, ending) == DumpLines(start, root, exports[..i], io, Lookups(answers), Unmounts(drivers))
      {
        ready, removed, ending := DumpExport(exports[i], ready, removed, io(i), answers, drivers);
        DumpLinesNext(start, root, exports, i, io, Lookups(answers), Unmounts(drivers));
        i := i + 1;
      }
      EndedDumpStays(start, root, exports, i, io, Lookups(answers), Unmounts(drivers));
    }

    /** The body of the dump loop, for one export. */
    method DumpExport(line: string, ready: bool, removed: int, io: LineIo,
                      answers: string -> (nat -> Answer), drivers: string -> (nat -> bool))
      returns (ready': bool, removed': int, ending: Ending)
      modifies this, file
      ensures Dump(View(), ready', removed', ending)
              == DumpLine(Dump(old(View()), ready, removed, Going), root, line, io, Lookups(answers), Unmounts(drivers))
    {
      ready', removed', ending := ready, removed, Going;
      var parts := Split(line, ' ');
      var exportDir := DirectoryOf(line);
      var serviceName := NameOf(root, line);
      var content := GetServiceContent(answers(serviceName));
      var service := LookupOf(content);
      if service.Missing? {
        ending := Crashed;
        return;
      }
      if service.Unresolved? {
        return;
      }
      var r := file.DeleteExport(exportDir, io.delete);
      file.generation := r.generation;
      if !r.ok {
        return;
      }
      removed' := removed' + 1;
      var ok, runs := file.ResyncNFSMountd(file.generation, io.first);
      if !ok {
        ending := Aborted;
        return;
      }
      var unmounted, calls := UnmountVolume(root + "/" + serviceName, drivers(serviceName), 0);
      if !unmounted {
        ready' := false;
        removed' := removed' - 1;
        PutBackExport(parts[0], Join(parts[1..], ' '), io);
      }
    }

    /** Adds a line again that was deleted; the errors of this are ignored. */
    method PutBackExport(directory: string, options: string, io: LineIo)
      modifies file
      ensures var (added, a) := Added(old(file.View()), directory, options, io.add);
              file.View() == Resynced(added, a.generation, io.second).0
    {
      var a := file.AddExport(directory, options, io.add);
      file.generation := a.generation;
      var ok, runs := file.ResyncNFSMountd(file.generation, io.second);
    }
  }
}

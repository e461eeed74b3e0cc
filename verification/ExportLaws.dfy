/** What exporting and unexporting a volume promise, call by call and together. */
module ExportLaws {
  import opened Text
  import opened ExportsText
  import opened ExportTable
  import opened ServiceTable
  import opened NfsServer
  import ServiceNames

  lemma DirectoryFacts(root: string, volumeId: string)
    requires GoodRoot(root) && volumeId != ""
    ensures var directory := StagingPath(root, volumeId) + "/";
            directory != "" && Trimmed(directory) && '\n' !in directory
  {
    var name := ServiceNames.VolumeIDToServiceName(volumeId);
    ServiceNames.NameIsPathElement(volumeId);
    var directory := StagingPath(root, volumeId) + "/";
    assert directory == root + "/" + name + "/";
    assert directory[0] == root[0] && root[0] in root;
    assert directory[|directory| - 1] == '/';
    forall c | c in directory ensures c != '\n' {
      assert c in root || c == '/' || c in name;
    }
  }

  /** Mounting puts the volume under its Service's name. */
  ghost predicate MountsAtStaging(root: string, volumeId: string, io: ExportIo) {
    io.mount.Mounted? ==> io.mount.path == StagingPath(root, volumeId)
  }

  lemma ExportLeavesLine(s: Server, root: string, options: string, volumeId: string, io: ExportIo)
    requires GoodRoot(root) && volumeId != "" && '\n' !in options
    requires NewlineTerminated(s.table.text) && MountsAtStaging(root, volumeId, io)
    requires io.mount.Mounted? && io.chown && io.chmod && io.list && io.add.NoFault?
    requires !Listed(s.table.text, StagingPath(root, volumeId) + "/")
    ensures var t := Exported(s, root, options, volumeId, io).0;
            && t.mounts == s.mounts + {StagingPath(root, volumeId)}
            && t.table.text == AddText(s.table.text, StagingPath(root, volumeId) + "/", options)
            && t.table.generation == s.table.generation + 1
            && Listed(t.table.text, StagingPath(root, volumeId) + "/")
  {
    DirectoryFacts(root, volumeId);
    AddedIsListed(s.table.text, StagingPath(root, volumeId) + "/", options);
  }

  /** After an export that succeeded, another one of the same volume succeeds and changes
      nothing: not the table, its generation or the kernel, nor the mounts. */
  lemma ExportIsIdempotent(s: Server, root: string, options: string, volumeId: string, io: ExportIo, again: ExportIo)
    requires GoodRoot(root) && volumeId != "" && '\n' !in options
    requires NewlineTerminated(s.table.text) && MountsAtStaging(root, volumeId, io)
    ensures var (t, ok) := Exported(s, root, options, volumeId, io);
            ok && !again.check.OpenFails? ==> Exported(t, root, options, volumeId, again) == (t, true)
  {
    if Exported(s, root, options, volumeId, io).1 && !AlreadyExported(s, root, volumeId, io.check) {
      ExportLeavesLine(s, root, options, volumeId, io);
    }
  }

  /** After a successful export the volume is mounted and its entry is in the file; the
      kernel has loaded that file exactly unless the call was answered by the check for a
      repeated request while the kernel was behind. */
  lemma ExportSuccessIff(s: Server, root: string, options: string, volumeId: string, io: ExportIo)
    requires GoodRoot(root) && volumeId != "" && '\n' !in options
    requires NewlineTerminated(s.table.text) && MountsAtStaging(root, volumeId, io)
    requires s.table.synced <= s.table.generation
    requires Exported(s, root, options, volumeId, io).1
    ensures var t := Exported(s, root, options, volumeId, io).0;
            && StagingPath(root, volumeId) in t.mounts
            && Listed(t.table.text, StagingPath(root, volumeId) + "/")
            && (t.table.kernel == t.table.text <==>
                (AlreadyExported(s, root, volumeId, io.check) ==> s.table.kernel == s.table.text))
  {
    if !AlreadyExported(s, root, volumeId, io.check) {
      ExportLeavesLine(s, root, options, volumeId, io);
    }
  }

  /** That happens: after an export whose resync failed, repeating it succeeds although the
      kernel never loaded the new line. */
  lemma RetryHidesFailedResync(s: Server, root: string, options: string, volumeId: string, io: ExportIo, again: ExportIo)
    requires GoodRoot(root) && volumeId != "" && '\n' !in options
    requires NewlineTerminated(s.table.text) && MountsAtStaging(root, volumeId, io)
    requires io.mount.Mounted? && io.chown && io.chmod && io.list && io.add.NoFault?
    requires !io.attempts.Succeed() && !again.check.OpenFails?
    requires s.table.synced <= s.table.generation
    requires !Listed(s.table.text, StagingPath(root, volumeId) + "/")
    ensures var (t, ok) := Exported(s, root, options, volumeId, io);
            !ok && Exported(t, root, options, volumeId, again) == (t, true) && t.table.kernel == s.table.kernel
  {
    ExportLeavesLine(s, root, options, volumeId, io);
  }

  /** When an export succeeds: exactly if the volume is mounted and listed, or it could be
      mounted and prepared, no line had its directory as a prefix, the entry was written and
      one of the two resyncs done. */
  lemma ExportAcceptedIff(s: Server, root: string, options: string, volumeId: string, io: ExportIo)
    requires s.table.synced <= s.table.generation
    ensures var path := StagingPath(root, volumeId);
            Exported(s, root, options, volumeId, io).1 <==>
            || (path in s.mounts && !io.check.OpenFails? && HasEntry(s.table.text, path + "/"))
            || (io.mount.Mounted? && io.chown && io.chmod && io.list && io.add.NoFault?
                && !HasEntry(s.table.text, io.mount.path + "/") && (io.attempts.first || io.attempts.second))
  {
    var path := StagingPath(root, volumeId);
    assert Listed(s.table.text, path + "/") <==> HasEntry(s.table.text, path + "/");
    if io.mount.Mounted? {
      AddAcceptedIff(s.table, io.mount.path + "/", options, io.add);
      ResyncAcceptedIff(Added(s.table, io.mount.path + "/", options, io.add).0, s.table.generation + 1, io.attempts);
    }
  }

  /** What an export leaves that fails: the mount, if it was made, and the entry, if it was
      written; the kernel keeps what it had. */
  lemma FailedExportLeaves(s: Server, root: string, options: string, volumeId: string, io: ExportIo)
    requires s.table.synced <= s.table.generation && !Exported(s, root, options, volumeId, io).1
    ensures var t := Exported(s, root, options, volumeId, io).0;
            && t.mounts == (if io.mount.Mounted? then s.mounts + {io.mount.path} else s.mounts)
            && t.table.kernel == s.table.kernel && t.table.synced == s.table.synced
            && (t.table.text != s.table.text <==>
                io.mount.Mounted? && io.chown && io.chmod && io.list && io.add.NoFault?
                && !HasEntry(s.table.text, io.mount.path + "/"))
  {
    if io.mount.Mounted? {
      var directory := io.mount.path + "/";
      AddAcceptedIff(s.table, directory, options, io.add);
      ResyncAcceptedIff(Added(s.table, directory, options, io.add).0, s.table.generation + 1, io.attempts);
      assert |s.table.text + (directory + " " + options + "\n")| > |s.table.text|;
    }
  }

  // --- Unexporting what was exported ---

  ghost predicate SingleSlashes(s: string) {
    forall i :: 0 <= i && i + 1 < |s| ==> !(s[i] == '/' && s[i + 1] == '/')
  }

  lemma {:induction false} SingleSlashesKept(s: string)
    requires SingleSlashes(s)
    ensures ReplaceDoubleSlash(s) == s
  {
    if |s| >= 2 {
      assert !(s[0] == '/' && s[0 + 1] == '/');
      forall i | 0 <= i && i + 1 < |s[1..]| ensures !(s[1..][i] == '/' && s[1..][i + 1] == '/') {
        assert !(s[i + 1] == '/' && s[i + 1 + 1] == '/');
      }
      SingleSlashesKept(s[1..]);
    }
  }

  lemma SingleSlashesAppend(front: string, name: string)
    requires SingleSlashes(front) && '/' !in name
    ensures SingleSlashes(front + name)
  {
    var path := front + name;
    forall i | 0 <= i && i + 1 < |path| ensures !(path[i] == '/' && path[i + 1] == '/') {
      if i + 1 < |front| {
        assert !(front[i] == '/' && front[i + 1] == '/');
      } else {
        assert path[i + 1] == name[i + 1 - |front|] && name[i + 1 - |front|] in name;
      }
    }
  }

  lemma UnexportPath(root: string, volumeId: string)
    requires SingleSlashes(root + "/") && volumeId != ""
    ensures ExportPath(root, volumeId, ServiceNames.VolumeIDToServiceName(volumeId)) == StagingPath(root, volumeId)
  {
    var name := ServiceNames.VolumeIDToServiceName(volumeId);
    assert name != "" by { ServiceNames.NameShape(volumeId); }
    assert '/' !in name by { ServiceNames.NameIsPathElement(volumeId); }
    SingleSlashesAppend(root + "/", name);
    SingleSlashesKept(root + "/" + name);
  }

  /** A volume that was neither mounted nor listed, after an export that succeeded. */
  lemma ExportedState(s: Server, root: string, options: string, volumeId: string, io: ExportIo)
    requires StagingPath(root, volumeId) !in s.mounts && s.table.synced <= s.table.generation
    requires MountsAtStaging(root, volumeId, io) && Exported(s, root, options, volumeId, io).1
    ensures var t := Exported(s, root, options, volumeId, io).0;
            && t.mounts == s.mounts + {StagingPath(root, volumeId)}
            && t.table.text == AddText(s.table.text, StagingPath(root, volumeId) + "/", options)
            && t.table.synced <= t.table.generation
  {
  }

  /** What any unexport that reports success does: the text is rewritten without the path,
      the kernel has the new text, and the path is unmounted exactly unless it was the
      error text alone that was taken for a success. */
  lemma UnexportedState(before: Server, root: string, volumeId: string, serviceName: string, io: UnexportIo, after: Server)
    requires Unexports(before, root, volumeId, serviceName, io, after, true)
    requires before.table.synced <= before.table.generation
    ensures var path := ExportPath(root, volumeId, serviceName);
            var taken := TakenAsUnmounted(UnmountMessage(volumeId));
            && after.table.text == DeleteText(before.table.text, path) && after.table.kernel == after.table.text
            && after.mounts == if !taken || Succeeds(io.driver, 0, MAX_UNMOUNT_ATTEMPTS) then before.mounts - {path}
                               else before.mounts
  {
  }

  /** Exporting a volume and unexporting it under the same name, both with success: the
      kernel has the file; the file is as it was exactly if it was canonical; the mounts
      are as they were exactly unless the error text alone was taken for an unmount. This
      holds as long as no other entry's name extends the volume's. */
  lemma ExportThenUnexport(s: Server, root: string, options: string, volumeId: string, io: ExportIo,
                           un: UnexportIo, after: Server)
    requires GoodRoot(root) && SingleSlashes(root + "/") && volumeId != "" && '\n' !in options
    requires s.table.synced <= s.table.generation
    requires !Listed(s.table.text, StagingPath(root, volumeId)) && StagingPath(root, volumeId) !in s.mounts
    requires MountsAtStaging(root, volumeId, io)
    ensures var (exported, done) := Exported(s, root, options, volumeId, io);
            done && Unexports(exported, root, volumeId, ServiceNames.VolumeIDToServiceName(volumeId), un, after, true) ==>
              && after.table.kernel == after.table.text
              && (after.table.text == s.table.text <==> Canonical(s.table.text))
              && (after.mounts == s.mounts <==>
                  !TakenAsUnmounted(UnmountMessage(volumeId)) || Succeeds(un.driver, 0, MAX_UNMOUNT_ATTEMPTS))
  {
    var path, name := StagingPath(root, volumeId), ServiceNames.VolumeIDToServiceName(volumeId);
    var (exported, done) := Exported(s, root, options, volumeId, io);
    if done && Unexports(exported, root, volumeId, name, un, after, true) {
      ExportedState(s, root, options, volumeId, io);
      UnexportedState(exported, root, volumeId, name, un, after);
      UnexportPath(root, volumeId);
      assert after.table.text == s.table.text <==> Canonical(s.table.text) by {
        DirectoryFacts(root, volumeId);
        AddThenDelete(s.table.text, path + "/", options, path);
      }
      assert s.mounts + {path} - {path} == s.mounts;
      assert path in s.mounts + {path};
    }
  }

  /** When an unexport succeeds: exactly if the file could be rewritten, one of the two
      resyncs was done, and one of thirty unmount calls, or the volume's ID has one of the
      two phrases in it. One that fails leaves the mounts as they are. */
  lemma UnexportAcceptedIff(before: Server, root: string, volumeId: string, serviceName: string, io: UnexportIo,
                            after: Server, ok: bool)
    requires Unexports(before, root, volumeId, serviceName, io, after, ok)
    requires before.table.synced <= before.table.generation && !io.delete.WriteFails?
    ensures ok <==>
            && io.delete.NoFault? && (io.attempts.first || io.attempts.second)
            && (Contains(volumeId, "not mounted") || Contains(volumeId, "no such file or directory")
                || exists k: nat :: k < 30 && io.driver(k))
    ensures !ok ==> after.mounts == before.mounts
  {
    var path := ExportPath(root, volumeId, serviceName);
    TakenAsUnmountedIff(volumeId);
    DeleteAcceptedIff(before.table, path, io.delete);
    var (deleted, r) := Deleted(before.table, path, io.delete);
    ResyncAcceptedIff(deleted, r.generation, io.attempts);
    assert Succeeds(io.driver, 0, 30) <==> exists k: nat :: k < 30 && io.driver(k);
  }

  lemma ReplaceStep(s: string)
    requires s != "" && !(|s| >= 2 && s[0] == '/' && s[1] == '/')
    ensures ReplaceDoubleSlash(s) == [s[0]] + ReplaceDoubleSlash(s[1..])
  {
    if |s| == 1 {
      assert s[1..] == "";
      assert s == [s[0]];
    }
  }

  lemma DropOf(a: string, rest: string, n: nat)
    requires n <= |a|
    ensures (a + rest)[n..] == a[n..] + rest
  {
  }

  /** Doubled slashes become single ones, pair by pair from the left. */
  lemma {:induction false} PairReplaced(a: string, b: string)
    requires a == "" || a[|a| - 1] != '/'
    ensures ReplaceDoubleSlash(a + ("//" + b)) == ReplaceDoubleSlash(a) + ("/" + ReplaceDoubleSlash(b))
    decreases |a|
  {
    var rest, done := "//" + b, "/" + ReplaceDoubleSlash(b);
    var s := a + rest;
    if a == "" {
      assert s == rest && rest[2..] == b;
    } else if |a| >= 2 && a[0] == '/' && a[1] == '/' {
      DropOf(a, rest, 2);
      PairReplaced(a[2..], b);
      Associative("/", ReplaceDoubleSlash(a[2..]), done);
    } else {
      assert s[0] == a[0] && (|a| >= 2 ==> s[1] == a[1]);
      ReplaceStep(s);
      ReplaceStep(a);
      DropOf(a, rest, 1);
      PairReplaced(a[1..], b);
      Associative([a[0]], ReplaceDoubleSlash(a[1..]), done);
    }
  }

  /** Without a Service name, the volume's ID names the export. */
  lemma UnexportPathById(root: string, volumeId: string)
    requires SingleSlashes(root + "/" + volumeId)
    ensures ExportPath(root, volumeId, "") == root + "/" + volumeId
  {
    SingleSlashesKept(root + "/" + volumeId);
  }

  /** An unexport that reports success has removed every line with the volume's path as a
      prefix from the file and from the kernel; and the volume is unmounted, exactly unless
      the error text was mistaken for a success. */
  lemma UnexportSuccess(before: Server, root: string, volumeId: string, serviceName: string, io: UnexportIo, after: Server)
    requires Unexports(before, root, volumeId, serviceName, io, after, true)
    requires before.table.synced <= before.table.generation
    ensures var path := ExportPath(root, volumeId, serviceName);
            var taken := TakenAsUnmounted(UnmountMessage(volumeId));
            && !Listed(after.table.text, path) && after.table.kernel == after.table.text
            && TrimmedLines(after.table.text) == Without(TrimmedLines(before.table.text), path)
            && (path in before.mounts ==>
                  (path !in after.mounts <==> !taken || Succeeds(io.driver, 0, MAX_UNMOUNT_ATTEMPTS)))
  {
    UnexportedState(before, root, volumeId, serviceName, io, after);
    DeletedLines(before.table.text, ExportPath(root, volumeId, serviceName));
  }

  // --- When the error text is mistaken ---

  const MESSAGE := "could not unmount volume "

  lemma NoMatchInMessage(volumeId: string, phrase: string, i: nat)
    requires i < |MESSAGE|
    requires phrase == "not mounted" || phrase == "no such file or directory"
    ensures !OccursAt(MESSAGE + volumeId, phrase, i)
  {
    var m := MESSAGE + volumeId;
    if i + |phrase| <= |m| {
      var here := m[i..i + |phrase|];
      assert here[0] == m[i] && here[1] == m[i + 1] && here[2] == m[i + 2] && here[4] == m[i + 4];
    }
  }

  lemma OccursLater(volumeId: string, phrase: string, i: nat)
    ensures OccursAt(MESSAGE + volumeId, phrase, i + |MESSAGE|) <==> OccursAt(volumeId, phrase, i)
  {
    var m := MESSAGE + volumeId;
    if i + |phrase| <= |volumeId| {
      assert m[i + |MESSAGE|..i + |MESSAGE| + |phrase|] == volumeId[i..i + |phrase|];
    }
  }

  lemma OccursInId(volumeId: string, phrase: string, i: nat)
    requires phrase == "not mounted" || phrase == "no such file or directory"
    requires OccursAt(MESSAGE + volumeId, phrase, i)
    ensures i >= |MESSAGE| && OccursAt(volumeId, phrase, i - |MESSAGE|)
  {
    if i < |MESSAGE| {
      NoMatchInMessage(volumeId, phrase, i);
    } else {
      OccursLater(volumeId, phrase, i - |MESSAGE|);
    }
  }

  lemma ContainsInId(volumeId: string, phrase: string)
    requires phrase == "not mounted" || phrase == "no such file or directory"
    ensures Contains(MESSAGE + volumeId, phrase) <==> Contains(volumeId, phrase)
  {
    ContainsIff(MESSAGE + volumeId, phrase);
    ContainsIff(volumeId, phrase);
    if i: nat :| OccursAt(MESSAGE + volumeId, phrase, i) {
      OccursInId(volumeId, phrase, i);
    }
    if i: nat :| OccursAt(volumeId, phrase, i) {
      OccursLater(volumeId, phrase, i);
    }
  }

  /** The text of a failed unmount is taken to say that nothing was mounted exactly if the
      volume's own ID says so: the driver's error is not part of it. */
  lemma TakenAsUnmountedIff(volumeId: string)
    ensures TakenAsUnmounted(UnmountMessage(volumeId)) <==>
            Contains(volumeId, "not mounted") || Contains(volumeId, "no such file or directory")
  {
    ContainsInId(volumeId, "not mounted");
    ContainsInId(volumeId, "no such file or directory");
  }
}

# Verification of the shared NFS module

The module (package `nfs`) turns block volumes into NFS volumes that many nodes share.
For the first client of a volume the controller attaches the array volume to that client's
node, which mounts it and exports it over NFS; a Service and an endpoint slice then point
all clients to that node. If the node fails, its volumes are moved to the least loaded
nodes, and when it comes back it is told to drop its old exports. Five pieces of state must
agree for this to work: the exports file and the kernel's copy of it, the loads that a
recovery reserves from, the Service with its slice and attachments, the monitor's counters
for every node, and the mounts of a node.

This project models that state and proves what its operations keep. Objects that the program
updates in place are classes whose methods are proved against functions on values; the
theorems are about those functions, over every input, every run or every interleaving.
`dafny verify dfyconfig.toml` checks the project.

| file | models |
|---|---|
| `Wrappers.dfy` | the Option type |
| `Text.dfy` | splitting, joining, trimming and line scanning, with their inverses |
| `ServiceNames.dfy` | volume IDs and the Service names made from them |
| `ExportsText.dfy` | prefix queries and edits on the text of the exports file |
| `ServiceTable.dfy` | the file as a table of Services, which the text edits refine |
| `ExportTable.dfy` | the file with its generation counters and the kernel's copy |
| `EditRuns.dfy` | runs of the real edits on tables of Services |
| `ResyncProtocol.dfy` | interleaved edits, resyncs and stores of generations |
| `Reservations.dfy` | the choice of new servers in a recovery |
| `NodeMonitor.dfy` | the ping state machine, and the counts a recovery starts from |
| `NodeIdAnnotation.dfy` | the driver's node ID, read off a JSON annotation |
| `PVLock.dfy` | the controller's lock per volume |
| `VolumeControl.dfy` | publishing, unpublishing and reassigning a volume |
| `VolumeFaults.dfy` | what faults in these leave behind, and which retries make up for it |
| `TeardownRace.dfy` | the interleavings of a last unpublish with a reassignment |
| `Paths.dfy` | path cleaning, and the paths of exported volumes |
| `NfsServer.dfy` | the node's export server |
| `ExportLaws.dfy`, `DumpLaws.dfy` | what exporting and unexporting undo, and what a dump conserves |
| `DumpSweeps.dfy` | dumps of tables in which directories extend each other |
| `DumpAnswers.dfy` | dumps from the answers of the cluster and the array driver, and with faults |
| `DumpHandshake.dfy` | the monitor and the node's server together |

Outcomes of calls that leave the program are parameters: a `Fault`, an `Io` record, or a
function from attempt numbers to results. A theorem without a condition on such a parameter
holds for all outcomes.

## Where the code differs from what its comments say

The models follow the code.

- The comment at `nfs/exports.go:32` says that the generation is updated with each
  `exportfs -r`; the code counts edits (`nfs/exports.go:156`, `nfs/exports.go:205`).
- `VolumeIDToServiceName` is documented to give a valid DNS name (`nfs/csinfs.go:140`). Section
  2.3.1 of RFC 1035 wants a letter or digit at the end, but the name is cut after it was
  trimmed, so it may end in `-` or `.` (`EndsAlnumIff`, `CutNameMayEndInSeparator`).
- `nodeRecovery` is documented to prefer a node that uses the volume
  (`nfs/noderecovery.go:51-52`); the code collects the clients and takes the least loaded node.
- `UnexportNfsVolume` is documented to get the array's volume ID (`nfs/nfs_service.go:223`);
  an unpublish sends the NFS one (`nfs/controller.go:494-497`).

Claims that one would expect, and that fail, are stated with the condition under which they
hold: `WriteBackIff`, `TrustworthyIff`, `FailedDeleteIff`, `AddedLineIff`, `QueriesAgreeIff`,
`DeleteIsExactIff`, `DumpConservesIff`, `CrashesIff`, `PanicsIff`, `OverlapIff`,
`RetriedPublishIff`, `UnreadablePublishIff`, `ResumableIff`, `RepublishIff`,
`UnpublishedIsNoClientIff`, `RecoveryIff`, `UnpublishRacesReassign`, `AgreesWithLookupIff`,
`SortedLookupIff`, `ExportSuccessIff`, `TakenAsUnmountedIff`, `NamesCollideIff`,
`EndsAlnumIff` and `IdempotentIff`.

## Model

| member | source | states |
|---|---|---|
| `ServiceNames.VolumeIDRoundTrip` | nfs/csinfs.go:127-138 | array and NFS IDs convert into each other: from the array's ID always, from any other ID exactly if it has the prefix |
| `ServiceNames.PatternMeaning` | nfs/csinfs.go:152-174 | the regular expression accepts exactly the non-empty legal names that start and end with a letter or digit and have no two separators in a row |
| `ServiceNames.FastPathIsRedundant` | nfs/csinfs.go:145-183 | the early return on a match changes no result: the name is the lowered, trimmed, cut and replaced ID |
| `ServiceNames.NameMeaning` | nfs/csinfs.go:145-183 | the name is, character by character, the first 63 of the stretch from the first to the last letter or digit of the ID |
| `ServiceNames.NamedPieceExists` | nfs/csinfs.go:156-162 | every ID has such a stretch; it is all of it if there is no letter or digit |
| `ServiceNames.NameShape` | nfs/csinfs.go:145-183 | at most 63 characters, all legal, with a letter or digit first if the ID has one, and empty exactly for the empty ID |
| `ServiceNames.NameIsPathElement` | nfs/csinfs.go:145-183 | a name holds no slash and no white space, so it is one element of an export path |
| `ServiceNames.UnchangedIff` | nfs/csinfs.go:145-183 | exactly the legal names that are short enough and have proper ends are left alone |
| `ServiceNames.EndsAlnumIff` | nfs/csinfs.go:158-167 | the name of an ID with a letter or digit ends in one exactly if the cut does not expose another character |
| `ServiceNames.IdempotentIff` | nfs/csinfs.go:145-183 | naming a name again gives the same name, exactly under that condition or if the ID has no letter or digit |
| `ServiceNames.CutNameMayEndInSeparator` | nfs/csinfs.go:158-167 | an ID of 64 characters whose name ends in a separator and changes when named again |
| `ServiceNames.NamesCollideIff` | nfs/csinfs.go:145-183 | two IDs get one name exactly if their stretches are equal once cleaned and cut to 63 characters |
| `ServiceNames.SettledNamesDiffer` | nfs/csinfs.go:145-183 | on the IDs that it leaves alone the naming is one to one |
| `ServiceNames.NamesMayCollide` | nfs/csinfs.go:145-183 | two IDs with one name |
| `ExportsText.AddedLineIff` | nfs/exports.go:145-156 | an added entry becomes a line of its own, after the others, exactly if the file was empty or newline-terminated; otherwise it is glued to the last line |
| `ExportsText.DeletedLines` | nfs/exports.go:170-202 | after a deletion the lines are the trimmed ones that lack the prefix, in order, and none with it is listed |
| `ExportsText.CanonicalIff` | nfs/exports.go:170-202 | rewriting all lines leaves the text as it is exactly if the text consists of clean newline-terminated lines |
| `ExportsText.AddThenDelete` | nfs/exports.go:134-207 | adding an entry and deleting it by any prefix of its directory that no line had gives back the original characters exactly if the file was canonical |
| `ExportsText.AddedIsListed` | nfs/exports.go:57-77 | an entry added to an empty or newline-terminated file is found by the check |
| `ExportsText.QueriesAgree` | nfs/exports.go:57-127 | on trimmed lines the three queries agree on whether there is a match, and on which is first |
| `ExportsText.QueriesAgreeIff` | nfs/exports.go:57-127 | the query for all matches answers as if it trimmed, whatever is asked, exactly if no line has a blank at either end |
| `ExportsText.QueriesDisagreeOnIndentedLine` | nfs/exports.go:104-127 | it does not trim, so an indented line is found by the others only |
| `ServiceTable.PrefixMeaning` | nfs/nfs_service.go:242-248 | a rendered line has a Service's path as prefix exactly if its name extends that name, and the Service's directory exactly if it is that name |
| `ServiceTable.HasIffListed` | nfs/exports.go:57-77 | the prefix check of a Service's directory answers whether that Service is in the table |
| `ServiceTable.AddRefines` | nfs/exports.go:134-158 | appending the text of an entry is appending the Service to the table, which stays valid |
| `ServiceTable.DeleteRefines` | nfs/exports.go:161-207 | deleting by text prefix is removing the names that extend the given one, and the table stays valid |
| `ServiceTable.StepRefines` | nfs/nfs_service.go:206-248 | each request, with the name made from its volume ID, does to the text what it does to the table |
| `ServiceTable.RunRefines` | nfs/exports.go:134-207 | the same over any run of requests: lines stay trimmed and terminated, names distinct |
| `ServiceTable.DirectoriesAreIncomparable` | nfs/nfs_service.go:206 | in a valid table no directory is a prefix of another |
| `ServiceTable.DeleteIsExactIff` | nfs/nfs_service.go:242-248 | a deletion removes its own Service alone exactly if no other name in the table extends it |
| `ServiceTable.DeleteTakesExtensionsAlong` | nfs/nfs_service.go:242-248 | deleting `nfs-1` also drops `nfs-10` |
| `ExportTable.ExportsFile.CheckExport` | nfs/exports.go:51-77 | the loop finds a match exactly if some trimmed line has the prefix |
| `ExportTable.ExportsFile.GetExport` | nfs/exports.go:80-102 | the first trimmed line with the prefix, or an error |
| `ExportTable.ExportsFile.GetExports` | nfs/exports.go:105-127 | all untrimmed lines with the prefix, in order |
| `ExportTable.ExportsFile.AddExport` | nfs/exports.go:134-158 | the new table and reply, for every fault and for an entry that exists |
| `ExportTable.AddAcceptedIff` | nfs/exports.go:134-158 | an entry is added exactly if nothing failed and no trimmed line has its directory as a prefix; then it is at the end of the file, and counted; otherwise nothing has changed |
| `ExportTable.ExportsFile.DeleteExport` | nfs/exports.go:161-207 | the new table and reply; a failed write leaves the lines written before it and no new generation |
| `ExportTable.ExportsFile.WriteLines` | nfs/exports.go:194-202 | the file holds all lines, or those before the write that failed |
| `ExportTable.DeleteAcceptedIff` | nfs/exports.go:161-207 | a deletion is done exactly if the file could be opened and each line written that it keeps; otherwise the file is as it was, or holds the first of these |
| `ExportTable.ExportsFile.ResyncNFSMountd` | nfs/exports.go:247-268 | the new table and reply; no `exportfs` is run if the generation is already synced, one if the first attempt succeeds, else two; success exactly if it was synced or one of the two succeeds |
| `ExportTable.ResyncAcceptedIff` | nfs/exports.go:250-267 | a resync that is not skipped succeeds exactly if one of two attempts does; then the kernel has the file and the generation is synced; otherwise nothing has changed |
| `EditRuns.EditsKeepTable` | nfs/exports.go:134-268 | over any run of the real edits, with any faults, resyncs and stored generations in between, the file renders a table of Services with distinct names, also after a torn rewrite |
| `EditRuns.RequestAcceptedIff` | nfs/exports.go:137-143 | a volume's entry is added exactly if nothing failed and the table has none of its name; a deletion is refused only for a fault |
| `ResyncProtocol.StartsCoherent` | nfs/exports.go:34-38 | the initial state of the runs: no edit yet, and the kernel has the file |
| `ResyncProtocol.RunKeepsCoherence` | nfs/exports.go:134-268 | over every orderly interleaving, synced <= generation the kernel loaded <= generation, both copies are the texts of those generations, and none falls |
| `ResyncProtocol.ResyncDelivers` | nfs/exports.go:247-268 | a resync that reports success, run or skipped, leaves the kernel with the file of that generation or a later one; if all is synced, with the file itself |
| `ResyncProtocol.NoSecondExportfs` | nfs/nfs_service.go:248-286 | after a successful resync of a generation, no later resync of it runs `exportfs`, whatever other handlers do |
| `ResyncProtocol.TrustworthyIff` | nfs/exports.go:250-263 | a handler may trust the resync of its own change, whatever the change, exactly if the synced counter is not ahead |
| `ResyncProtocol.WriteBackIff` | nfs/nfs_service.go:206-213 | storing a returned generation outside the lock keeps resyncs trustworthy over all continuations exactly if no edit came in between |
| `ResyncProtocol.TornLosesALine` | nfs/exports.go:188-201 | a rewrite that fails half-way leaves fewer lines than there were |
| `ResyncProtocol.FailedDeleteIff` | nfs/exports.go:161-206 | after a deletion that fails, with all synced, the counters go on saying synced, and are right exactly if the rewrite was not torn; the next change and resync repair it |
| `Reservations.ExportCounts.FindNextAvailableNode` | nfs/noderecovery.go:256-281 | for every order of visiting the map: a node with the least load below the largest integer is taken, else the empty name, and one slot is reserved |
| `Reservations.RunTotals` | nfs/noderecovery.go:256-281 | over any run the nodes stay the same, only they are chosen, no load falls and the total grows by one per reservation |
| `Reservations.RunExcess` | nfs/noderecovery.go:256-281 | the load above any threshold ends at the larger of what was there and what the total forces |
| `Reservations.ReservationsAreOptimal` | nfs/noderecovery.go:256-281 | for every threshold, no way at all of giving out as many volumes leaves less load above it |
| `Reservations.LargestLoadIsLeast` | nfs/noderecovery.go:256-281 | so the largest load is the least possible |
| `Reservations.SpreadDoesNotGrow` | nfs/noderecovery.go:256-281 | the difference between two loads stays within the initial spread, or one |
| `Reservations.OrderDoesNotMatter` | nfs/noderecovery.go:264-272 | runs of one length from equal loads end with equal loads as multisets, whatever the orders and ties |
| `Reservations.EmptyCounts` | nfs/noderecovery.go:257-272 | without counts every reservation chooses the empty name |
| `NodeMonitor.NodeStatus.Observe` | nfs/nodemonitor.go:134-176 | the new status after a ping result, including the panic on a reply that is not ready |
| `NodeMonitor.NodeStatus.Pinger` | nfs/nodemonitor.go:115-177 | the status after any number of pings, and what each request asked for |
| `NodeMonitor.PingMeaning` | nfs/nodemonitor.go:141-160 | a result is a counted failure exactly if it is an error with none of the three texts in it, good exactly if it is a ready reply |
| `NodeMonitor.ResultsMeaning` | nfs/nodemonitor.go:134-176 | for any results: recoveries started = maximal long runs of such failures; in recovery, online, dumping and the status text as functions of the results |
| `NodeMonitor.StateMeaning` | nfs/nodemonitor.go:134-176 | after any trace: recoveries started = maximal long runs of counted failures; in recovery, online and dumping as functions of the counted pings |
| `NodeMonitor.LongRunsAreMaximalRuns` | nfs/nodemonitor.go:147-157 | the places counted are exactly the starts of maximal runs of enough failures |
| `NodeMonitor.PanicsIff` | nfs/nodemonitor.go:141-147 | the monitor panics exactly if some ping was answered without error and not ready, as the module's own server never does |
| `NodeMonitor.AdmitsIffLastPingGood` | nfs/controller.go:165-168 | a node is admitted exactly if its last counted ping was good; in recovery implies dumping, two good pings imply not dumping |
| `NodeMonitor.DumpStopsAfterTwoGoodPings` | nfs/nodemonitor.go:161-173 | dumping stops only after two good answers to requests that carried the flag, with no counted failure in between |
| `NodeMonitor.AdmittedWhileDumping` | nfs/nodemonitor.go:165-173 | after the first good ping following a recovery the node is admitted and still dumping |
| `NodeMonitor.GetNodeExportCounts` | nfs/nodemonitor.go:181-218 | the counts hold exactly the nodes that answered and are not in recovery, with what they reported |
| `NodeMonitor.RecoveryAvoidsFailedNode` | nfs/noderecovery.go:63-80 | every reservation from such counts takes a node that answered and was not in recovery, never the failed one |
| `NodeIdAnnotation.DriverNodeName` | nfs/noderecovery.go:170-186 | the loop returns what the last matching part decides |
| `NodeIdAnnotation.ReadPrinted` | nfs/noderecovery.go:170-186 | from the compact JSON of any map without delimiters it reads the value, up to a colon, of the last key that extends the driver's name |
| `NodeIdAnnotation.AgreesWithLookupIff` | nfs/k8s/k8s.go:135-153 | if no later key extends the driver's name, this is what a JSON lookup finds exactly if the value holds no colon |
| `NodeIdAnnotation.ExtendingKeyIsRead` | nfs/noderecovery.go:176-183 | otherwise another key's value is read |
| `NodeIdAnnotation.SortedLookupIff` | nfs/noderecovery.go:170-186 | from a map printed with sorted keys, the driver's value is read, whatever the values, exactly if no other key extends the driver's name |
| `PVLock.MutualExclusion` | nfs/controller.go:85-106 | for any handlers and interleaving at most one is inside per key, and the map holds exactly the keys of those inside |
| `PVLock.UnlockFreesOwnKey` | nfs/controller.go:128-129 | a handler frees the key it took and no other, though its request's ID was rewritten meanwhile |
| `PVLock.OverlapIff` | nfs/noderecovery.go:99-101 | over all runs, with request IDs overwritten at will, a publish and a reassignment of one volume can both be inside exactly if its ID has the NFS prefix |
| `VolumeControl.Controller.ControllerPublishVolume` | nfs/controller.go:108-187 | the new state and answer, for every fault |
| `VolumeControl.Controller.MakeNfsService` | nfs/controller.go:207-369 | what each fault leaves behind of attachment, export, slice and Service |
| `VolumeControl.Controller.AddNodeToNfsService` | nfs/controller.go:371-383 | the label is added unless it is there and not empty |
| `VolumeControl.Controller.CountClients` | nfs/controller.go:392-398 | the loop over the labels counts the client keys, in any order |
| `VolumeControl.Controller.RemoveNodeFromNfsService` | nfs/controller.go:388-402 | the label is gone, and the answer tells whether no client is left |
| `VolumeControl.Controller.ControllerUnpublishVolume` | nfs/controller.go:443-535 | the new state and answer, for every fault |
| `VolumeControl.Controller.UpdateEndpointSlice` | nfs/noderecovery.go:237-253 | all three places of the slice change together, or none |
| `VolumeControl.Controller.ReassignVolume` | nfs/noderecovery.go:96-235 | the new state and answer, for every fault; a failed slice update is a success |
| `VolumeControl.Controller.RecoverVolume` | nfs/noderecovery.go:68-80 | a failed reassignment is tried once more |
| `VolumeControl.ApplyClients` | nfs/controller.go:371-402 | how one call changes the set of clients, read off the labels |
| `VolumeControl.ApplyKeepsConsistency` | nfs/controller.go:108-535 | each fault-free call keeps: Service, slice and clients exist together, one attachment, at the slice's node, which exports |
| `VolumeControl.RunIsConsistent` | nfs/controller.go:108-535 | the same over every fault-free run, and the clients are the nodes whose latest accepted call was a publish |
| `VolumeControl.NoExportLeaks` | nfs/controller.go:108-535 | over every such run in which the old servers' unexports were done, no node but the server exports the volume |
| `VolumeControl.LastUnpublishTearsDown` | nfs/controller.go:482-531 | the last unpublish removes everything from the current server, even after a failover and from another node |
| `VolumeControl.CallsAreIdempotent` | nfs/controller.go:108-535 | repeating an accepted publish or unpublish changes nothing, as the ControllerPublishVolume and ControllerUnpublishVolume sections of CSI v1.6.0 require |
| `VolumeFaults.LastUnpublishAcceptedIff` | nfs/controller.go:461-531 | the last client's unpublish succeeds exactly if nothing failed but the connection to its server, or a read failed with "not found"; but for the latter nothing is left of Service, slice and attachment |
| `VolumeFaults.OtherUnpublishAcceptedIff` | nfs/controller.go:388-402 | any other client's touches the label alone, and succeeds exactly if that could be updated, or a read failed so |
| `VolumeFaults.EmptyUnpublishAcceptedIff` | nfs/controller.go:461-470 | with nothing to unpublish it succeeds exactly unless a read failed otherwise |
| `VolumeFaults.UnaddressedUnpublishFails` | nfs/controller.go:472-480 | with a slice that has no address nothing is done |
| `VolumeFaults.PublishAcceptedIff` | nfs/controller.go:176-183 | a publish on a volume in use succeeds exactly if its reads did and its label was there or could be written; then the node is a client, and nothing else has changed |
| `VolumeFaults.FirstPublishAcceptedIff` | nfs/controller.go:163-175 | a first publish succeeds exactly if the node was looked up and admitted and each call was done; then it is the one client and the server, and labels and slice say so |
| `VolumeFaults.ReassignAcceptedIff` | nfs/noderecovery.go:96-235 | an attempt to reassign succeeds exactly if all was done but for the update of the slice |
| `VolumeFaults.RecoveryAcceptedIff` | nfs/noderecovery.go:68-80 | a recovery succeeds exactly if one of its two attempts does |
| `VolumeFaults.UnpublishIsResumable` | nfs/controller.go:482-531 | after any number of attempts that failed up to the deletion of the slice, a fault-free retry ends where an unfaulted call would have |
| `VolumeFaults.ResumableIff` | nfs/controller.go:482-531 | for any sequence of attempts with any faults, a retry does so exactly if the first that got past the slice deletion went through with the volume no longer exported |
| `VolumeFaults.LateFaultLeaksAttachment` | nfs/controller.go:510-531 | if the Service deletion or the detachment failed, the retry reports success, and the volume stays attached over every later run, with any faults, until that node is made the server again |
| `VolumeFaults.SliceWithoutServiceIsFinal` | nfs/controller.go:324-366 | if a first publish could create the slice but not the Service, every later publish is refused, over every run with any faults |
| `VolumeFaults.RetriedPublishIff` | nfs/controller.go:207-369 | after any refused first publishes, a fault-free one is accepted with all in order exactly if none left a slice without a Service, and those that left an attachment left it on the same node |
| `VolumeFaults.RepublishIff` | nfs/controller.go:152-183 | after any attempts to unpublish the last client, with any faults, for a publish on any node: when it is accepted, and when the volume is then served and all in order |
| `VolumeFaults.PublishDuringTeardown` | nfs/controller.go:176-183 | a client that comes between the unexport and a failed slice deletion is accepted on a server that exports nothing |
| `VolumeFaults.UnpublishedIsNoClientIff` | nfs/controller.go:461-470 | after an accepted unpublish the node is no client, except exactly if it was one and the read failed with a text that says "not found" |
| `VolumeFaults.UnreadablePublishIff` | nfs/controller.go:152-174 | a publish that cannot read the objects fails and leaves one attachment exactly if its node is the server |
| `VolumeFaults.RecoveryIff` | nfs/noderecovery.go:68-80 | for all faults and targets of the two attempts, be they the failed node itself: which leave the volume attached to the slice's node alone, and which leave all in order, with that node exporting it |
| `TeardownRace.UnpublishAlone` | nfs/controller.go:461-531 | the steps of an unpublish, one after the other, do what the operation does |
| `TeardownRace.ReassignAlone` | nfs/noderecovery.go:113-234 | the steps of a reassignment, one after the other, do what the operation does |
| `TeardownRace.UnpublishRacesReassign` | nfs/controller.go:461-531 | for every interleaving of the last unpublish with a reassignment: the order of steps under which the volume is detached, that it is left on the target otherwise, and which nodes go on exporting it |
| `Paths.CleanDirectory` | nfs/nfs_service.go:318-325 | cleaning the directory of an export line gives the Service's path |
| `Paths.CleanDropsDots` | nfs/nfs_service.go:321 | cleaning drops a trailing slash and a trailing dot |
| `Paths.CleanTakesParents` | nfs/nfs_service.go:321 | it takes an element and its parent together |
| `Paths.ServiceOfPath` | nfs/nfs_service.go:324-325 | cutting the export directory off it gives the Service's name |
| `Paths.SharedVolumeNameIsPlain` | nfs/csinfs.go:145-183 | the names of shared volumes are no `.` or `..` and so survive cleaning |
| `NfsServer.NfsServer.ExportNfsVolume` | nfs/nfs_service.go:118-220 | the new table, mounts and answer, for every outcome of its calls |
| `NfsServer.NfsServer.UnmountVolume` | nfs/nfs_service.go:385-397 | success exactly if one of ten calls succeeds, the first such being the last made |
| `NfsServer.NfsServer.UnmountInRounds` | nfs/nfs_service.go:259-286 | at most thirty unmount calls and no `exportfs`; success exactly if one succeeds or the error text is taken for it |
| `NfsServer.NfsServer.UnexportNfsVolume` | nfs/nfs_service.go:224-287 | the new table, mounts and answer; no `exportfs` after the first successful resync |
| `NfsServer.NfsServer.Ping` | nfs/nfs_service.go:304-383 | without the flag nothing changes; with it the server after the dump |
| `NfsServer.NfsServer.DumpExports` | nfs/nfs_service.go:317-373 | the dump loop, ended early by a failed resync or a crash |
| `NfsServer.NfsServer.DumpExport` | nfs/nfs_service.go:318-372 | one turn of it, for every outcome |
| `NfsServer.NfsServer.PutBackExport` | nfs/nfs_service.go:361-371 | the deleted line is added again and resynced, errors ignored |
| `NfsServer.GetServiceContent` | nfs/nfs_service.go:399-418 | neither a Service nor an error is returned exactly if all three attempts fail otherwise than with not found; else the first other answer decides |
| `NfsServer.MissingIff` | nfs/nfs_service.go:327-333 | the dump gets neither a Service nor an error exactly if each attempt failed otherwise than with not found |
| `ExportLaws.ExportIsIdempotent` | nfs/nfs_service.go:127-143 | after a successful export a second one changes nothing and succeeds |
| `ExportLaws.ExportAcceptedIff` | nfs/nfs_service.go:118-220 | an export succeeds exactly if the volume is mounted and listed, or each call was done, no line had its directory as a prefix, and one of two resyncs succeeded |
| `ExportLaws.FailedExportLeaves` | nfs/nfs_service.go:163-217 | one that fails leaves the mount, if it was made, and the entry, if it was written; the kernel keeps what it had |
| `ExportLaws.ExportSuccessIff` | nfs/nfs_service.go:118-220 | after a success the volume is mounted and listed, and the kernel has the file exactly unless the shortcut answered while the kernel was behind |
| `ExportLaws.RetryHidesFailedResync` | nfs/nfs_service.go:131-143 | after an export whose resync failed, the retry succeeds, changes nothing, and the kernel still lacks the line |
| `ExportLaws.ExportThenUnexport` | nfs/nfs_service.go:118-287 | any two calls that report success, under one Service name: the kernel has the file, the file is what it was exactly if it was canonical, the mounts are exactly unless the error text alone was taken for an unmount |
| `ExportLaws.UnexportSuccess` | nfs/nfs_service.go:248-286 | a nil result means that the path is gone from file and kernel, and the volume unmounted exactly unless the error text was mistaken for success |
| `ExportLaws.UnexportAcceptedIff` | nfs/nfs_service.go:224-287 | an unexport succeeds exactly if the file was rewritten, one of two resyncs done, and one of thirty unmount calls, or the ID has one of two phrases in it |
| `ExportLaws.UnexportPathById` | nfs/nfs_service.go:242-245 | without a Service name the volume's ID names the export |
| `ExportLaws.PairReplaced` | nfs/nfs_service.go:246 | doubled slashes become single ones, pair by pair from the left |
| `ExportLaws.TakenAsUnmountedIff` | nfs/nfs_service.go:271-275 | the text of a failed unmount is taken for success exactly if the volume's ID contains one of the two phrases |
| `DumpLaws.DumpOutcome` | nfs/nfs_service.go:310-381 | the final lines, in order: those untouched, then those whose unmount failed, character for character; mounts, `removed` and Ready follow |
| `DumpLaws.DumpConserves` | nfs/nfs_service.go:310-381 | final and released lines together are the initial ones, as multisets, and `removed` is the exact difference |
| `DumpLaws.DumpByLine` | nfs/nfs_service.go:310-381 | a line is gone exactly if its Service was found and its volume unmounted; ready exactly if no unmount failed |
| `DumpLaws.ReadyDumpLeavesNothing` | nfs/nfs_service.go:375-382 | a dump that reports ready leaves no line whose Service was found |
| `DumpLaws.ServiceTableIsTidy` | nfs/nfs_service.go:318-325 | tables made by the module, with incomparable names, meet the conditions, and a dump reads the names off them |
| `DumpLaws.DumpOfServiceTable` | nfs/nfs_service.go:310-381 | so, for such tables, exactly the Services that were found and unmounted are gone |
| `DumpSweeps.LineIsKeptIff` | nfs/nfs_service.go:310-381 | with any directories, a line is in the end as often there as at first, or not at all, exactly if it was not released and no dropped line swept it away for good; mounts, `removed` and Ready follow |
| `DumpSweeps.DumpConservesIff` | nfs/nfs_service.go:310-381 | a dump conserves exports, as multisets and line by line, exactly if each line that a dropped one sweeps along is released as well, or comes later and is put back |
| `DumpSweeps.ServiceDumpIff` | nfs/nfs_service.go:310-381 | the same for tables of Services, in terms of names that extend each other |
| `DumpSweeps.DumpTakesExtensionsAlong` | nfs/nfs_service.go:310-381 | of a dropped Service and one not found whose name extends its name, the whole dump leaves no line, a volume mounted and Ready |
| `DumpSweeps.SweptTable` | nfs/nfs_service.go:340 | such a table: `nfs-1` and `nfs-10` |
| `DumpLaws.FailedResyncEndsDump` | nfs/nfs_service.go:346-352 | a failed resync ends the dump with an error, the line gone, the volume mounted and Ready as it was |
| `DumpLaws.DumpEnding` | nfs/nfs_service.go:317-352 | a dump comes to its end exactly if no line has a lookup that gave nothing, and none was deleted without a resync that succeeded |
| `DumpLaws.CrashesIff` | nfs/nfs_service.go:327-333 | it crashes exactly if some lookup gave neither a Service nor an error, and no line before ended the dump |
| `DumpAnswers.LookupMeaning` | nfs/nfs_service.go:327-337 | a volume is found exactly if one of three answers is a Service with the annotation, after others that failed otherwise than with not found; nothing is returned exactly if all three failed so |
| `DumpAnswers.TurnMeaning` | nfs/nfs_service.go:317-373 | without faults a line is gone after its turn exactly if its volume was found and one of ten unmount calls succeeded; count and mounts follow |
| `DumpAnswers.DumpByAnswers` | nfs/nfs_service.go:310-381 | so for whole dumps, with incomparable directories: lines, count and Ready from the answers |
| `DumpAnswers.DumpByAnswersIff` | nfs/nfs_service.go:310-381 | and with any directories, exactly if the dump sweeps safely |
| `DumpAnswers.DumpCompletesIff` | nfs/nfs_service.go:310-352 | a dump comes to its end exactly if the file could be read and each line let it go on; if it could not be read, nothing is changed |
| `DumpAnswers.FailedDeleteIsSkipped` | nfs/nfs_service.go:340-344 | a line whose deletion fails is passed over, neither counted nor unmounted |
| `DumpAnswers.FailedPutBackLosesLine` | nfs/nfs_service.go:357-372 | a line that cannot be added again is lost with its volume mounted, and the node is not ready |
| `DumpHandshake.ServerNeverPanics` | nfs/nfs_service.go:375-382 | over any pings that failed or that the module's own server answered, the monitor never panics |
| `DumpHandshake.StoppedDumpLeavesNothing` | nfs/nodemonitor.go:161-173 | when the monitor stops asking for dumps, the last one, if fault-free, left no line whose Service could be found |

## Left out

- gRPC clients and listeners, generated code in `nfs/proto/` and `nfs/mocks/`: plumbing.
- The Kubernetes client, the array driver, `exportfs`, `chown`, `chmod` and `ls`: their outcomes are parameters.
- `nfs/node.go`, staging and publishing on the node: shell commands with little state of their own.
- `ExportMultipleNfsVolumes` and `UnexportMultipleNfsVolumes`, loops over single exports, and the node-side lock per volume, which works as the controller's.
- `restartNFSMountd` (no caller), stub CSI methods, `identity.go`, `env.go` and start-up checks: nothing to prove.
- Sleeps, timeouts, deadlines and logging. Endless loops are modelled by their finite prefixes, and nothing is said about liveness.
- The endless retry in `makeNfsService` ends in a success or in the timeout of the request.
- An array mount that finishes after its export timed out.
- Unsynchronised reads of `NodeStatus`, and the reassignment of `exportCounts` by a second recovery: a ping is one step, and one recovery has one map.
- The unexport that `reassignVolume` sends asynchronously happens before the detachment or not at all.
- A ping that returns neither a reply nor an error.
- IDs that are not ASCII; the scanner's limit on line length and its read errors after a successful open.
- Integer widths, but for the start value of the node search: lemmas about reservations assume counts that do not overflow, and generations are unbounded.
- JSON escapes in the annotation: keys and values hold no quote.
- The first client's pod network and export options are one options string.
- ResyncProtocol.RunKeepsCoherence: assumes writes that are all or nothing and no stale generation stored outside the lock, because `FailedDeleteIff` and `WriteBackIff` show what happens otherwise.
- ResyncProtocol.StartsCoherent: takes the kernel to have loaded the file at the start.
- ExportTable.ExportsFile.DeleteExport: writes one line all or nothing.
- NfsServer.NfsServer.Ping: stores generations without interleaved handlers, which `ResyncProtocol` covers.
- DumpLaws.DumpConserves: assumes successful writes and resyncs (`FailedResyncEndsDump` shows a failed one), clean lines and incomparable directories; `DumpSweeps.DumpConservesIff` drops the last.
- DumpLaws.CrashesIff: deletions either fail before the file is opened for writing or are written whole; a torn rewrite is left to `DeleteExport`.
- ExportLaws.UnexportAcceptedIff: a deletion fails before the file is opened for writing, or is written whole; `DeleteAcceptedIff` covers torn ones.
- DumpAnswers.DumpCompletesIff: the same.
- NfsServer.NfsServer.ExportNfsVolume: takes `Stat` of a volume's path to succeed exactly if it is mounted.
- VolumeControl.RunIsConsistent: is about runs without faults. `VolumeFaults` says what faults do: `RetriedPublishIff` and `SliceWithoutServiceIsFinal` for a first publish, `UnreadablePublishIff` for one on a volume in use, `RepublishIff` for one after a failed teardown, `ResumableIff` and `LateFaultLeaksAttachment` for the last unpublish, `RecoveryIff` for a recovery.
- TeardownRace.UnpublishRacesReassign: both handlers run without faults.

# Verified model of ageLANServer

ageLANServer runs a LAN game server beside a launcher that changes the player's
machine: it edits the hosts file, swaps user-data folders, appends certificates, and
asks an administrator agent for the changes it may not make itself. This project models
the parts of it that hold algorithms and protocols, and proves what they promise.

| module | models |
|---|---|
| `Text`, `HostLine` | string splitting and joining; one hosts-file line: parser with its limits, printer, own-mark |
| `HostsFile`, `HostsUndo`, `HostsText`, `HostsEffect`, `HostsResolve` | rewriting a hosts file and undoing it; the same on file texts, with what stays of the old text; what a rewrite adds, keeps and lists; which address a host has after it |
| `PersistentStore` | the versioned key/value store: live data, raw cache and file under interleaved sections, failures and reopening |
| `OrderedMap` | the copy-on-write ordered map, refining a sequence of unique key/value pairs |
| `FileSystem`, `UserDataPath`, `Isolation`, `Profiles`, `CaCert`, `SetUpSaga` | the file-system transactions of the launcher, with a failure possible at each operation, up to the whole set-up with its undo |
| `AgentProtocol` | client and administrator agent as two processes over byte streams |
| `Sweeper`, `Messages` | expiring sessions and their sweeper; a session's message queue |
| `Lobby`, `LobbyStore` | lobbies and peers over interleaved locked blocks, and over whole requests; the objects and handlers that refine them |
| `Targets`, `WinePath`, `Broadcast`, `ArgsStore` | the merge of build targets, path resolution under Wine, the broadcast packet, the flags file |

Code that updates objects step by step is a class or a method with loops, proved against
a function of its inputs; the lemmas are about those functions. Processes that run at the
same time are steps of one state machine, and the lemmas hold over every run of it.

Where the code does not keep a property its design suggests, the model keeps the code's
behaviour and a lemma says when the property holds:

- The restore pass panics exactly on a line that is the launcher's name alone, bare or behind
  a marker (`HostsUndo.AddHostsPanics`); a comment longer than the line limit comes back cut,
  and an own-marked line that maps nothing comes back shorter (`HostsUndo.RestoredMeaning`).
- The new hosts file is written over the old one, which is not cut off. Restoring it gives the
  old one back exactly when every line is undoable in the file and the restore pass drops all
  that stayed of the old text, as it does when the old text was not longer
  (`HostsText.UndoFile`, `HostsText.UndoShorterFile`); behind a long enough comment a line is
  restored twice (`HostsText.LongCommentLeavesTail`).
- When no mapping is missing, the hosts file is left alone, and restoring it then drops its
  unparseable lines (`HostsUndo.RestoreUnwritten`).
- The first mention of a wanted host in the lines written has its address exactly when the file
  gave the host no address, or this one in its first two mentions; for the machine's own name,
  exactly when it did not give it this address (`HostsResolve.WantedResolves`). A line that gives
  the host another address stays in front (`HostsResolve.OtherAddressStays`).
- A failed callback leaves live data the file does not have exactly when it changed it
  (`PersistentStore.FailedCallbackStrays`).
- A failing set-up leaves everything as at entry exactly when what it did is reversible: the
  added certificate is own or was there, no own one was there before, and neither a backup
  nor a temporary CA file was (`SetUpSaga.SetUp.RunSetUp`).
- The agent forgets a change, and then makes it twice, exactly when the run that made it lost
  its log (`AgentProtocol.HandleHonest`, `AgentProtocol.AgentStaysHonest`).
- An answer 0 of the agent means that the change was made, but for a run that failed with exit
  code 0 and a revert after a lost log (`AgentProtocol.AnswerZeroIsMade`,
  `AgentProtocol.AnsweredZeroIsMade`).
- The sweeper panics when a session expires at the very instant of a sweep
  (`Sweeper.AtomicSweep`), and deletes a session that has not expired exactly when it was
  created or renewed since the scan, less than a duration ago (`Sweeper.RemovesUnexpired`).
- A user is in two lobbies exactly when some block or request added it to one while it was in
  another (`Lobby.RunKeepsOneEach`, `Lobby.ServeKeepsOneEach`).
- A lobby is handed to a user that is no peer of it exactly when the last block about that user
  between the check and the change took it out (`Lobby.InterleavedUpdateHost`).
- A poll that takes as many messages as the channel holds returns them without moving the
  message number (`Messages.SessionData.WaitForMessages`).
- A broadcast name outside 1 to 65535 bytes cannot be read back (`Broadcast.ParsePacket`).

## Model

| member | source | states |
|---|---|---|
| `Text.SplitJoin` | common/hosts/line.go:55 | cutting joined parts at the separator gives the parts back, when none holds it |
| `Text.JoinSplit` | common/hosts/line.go:73-79 | joining what was cut at a separator gives the text back, for every text |
| `Text.FieldsJoin` | common/hosts/line.go:44-48 | tokens printed with single spaces are read back as the same tokens |
| `Text.FieldsAppend` | common/hosts/parser.go:47 | a text cut at any white space has the fields of both parts, in order |
| `HostLine.ParseHostTokens` | common/hosts/parser.go:69-74 | the host loop keeps, in order, the decoded names of the tokens that parse |
| `HostLine.ParseLine` | common/hosts/parser.go:23-77 | the loop over limits, comment, address and hosts computes the parse function the round trips are proved about |
| `HostLine.LimitsExactly` | common/hosts/parser.go:23-77 | a line is over its limits exactly when it has more than 255 characters on Unix (two less than a string can hold on Windows) or, on Windows, is an address line of more than nine host tokens; what is read then is the first 255 characters, or the first nine tokens |
| `HostLine.FirstNine` | common/hosts/parser_windows.go:5 | on Windows an address line whose tokens all parse goes over its limits with the tenth host and keeps the first nine of the hosts read without limits |
| `HostLine.ParseHostsAppend` | common/hosts/parser.go:69-74 | the hosts of tokens are those of their parts, in order |
| `HostLine.ParseShow` | common/hosts/line.go:39-58 | printing a well-formed line and parsing it without limits gives the line back |
| `HostLine.ParseWellFormed` | common/hosts/parser.go:23-77 | every line the parser accepts is well formed, so it can be printed and read back |
| `HostLine.SplitAtMarker` | common/hosts/parser_nonDarwin.go:7-9 | cutting a line at its first marker and the rest at all markers is cutting it at all markers |
| `HostLine.CommentAndBackIdentity` | common/hosts/line.go:60-103 | comment out, mark, print, parse, unmark and uncomment gives the printed line back exactly when it is not a comment; a comment loses its marker, an empty line panics |
| `HostLine.CommentOutAddress` | common/hosts/line.go:60-67 | a commented-out address line is a comment holding its whole text, own-marked only if it was |
| `HostLine.MarkedComment` | common/hosts/line.go:89-103 | the own mark survives printing and parsing, and taking it off undoes putting it on |
| `HostLine.ShowNotOwn` | common/hosts/line.go:28-33 | the last part of a printed address line is the mark exactly when the line is own-marked |
| `HostLine.MappingShown` | common/hosts/mappings.go:26-40 | an added mapping is printed as address, tab, host and the launcher's name as a comment |
| `HostsFile.HostMappings.Lines` | common/hosts/mappings.go:26-40 | one own-marked line for each mapping, each once, in some order |
| `HostsFile.FindMapped` | common/hosts/hosts.go:120-126 | the first host loop takes wanted mappings out of the map and notes their positions |
| `HostsFile.KeepOthers` | common/hosts/hosts.go:127-135 | the second host loop keeps the other hosts and says whether any was left out |
| `HostsFile.CommentTextOk` | common/hosts/hosts.go:86-96 | any text at all can be commented out, keeping all of it, with the own mark |
| `HostsFile.RewriteOne` | common/hosts/hosts.go:105-154 | the branches for one line: kept, split, commented out, or over the limit |
| `HostsFile.MissingIpMappings` | common/hosts/hosts.go:98-158 | the scan threads the shrinking map through all lines |
| `HostsFile.AddHosts` | common/hosts/hosts.go:249-330 | writes the kept lines, a blank one and the missing mappings, or nothing when none is missing |
| `HostsFile.RestoreOne` | launcher-config-admin/internal/hosts/hosts.go:62-77 | what becomes of one line: dropped, kept, uncommented, or a panic |
| `HostsFile.RestoreInPlace` | launcher-config-admin/internal/hosts/hosts.go:61-78 | the whole pass, panicking exactly when a line does |
| `HostsFile.RestoreAppend` | launcher-config-admin/internal/hosts/hosts.go:61-78 | restoring lines one part after another is restoring them together |
| `HostsUndo.RestoreRewritten` | common/hosts/hosts.go:105-154 | for any line, limit and mapping, the lines it was rewritten to are restored to one line, or panic |
| `HostsUndo.AddressLines` | common/hosts/hosts.go:127-154 | an address line becomes itself, or its whole text commented out and, if hosts remain, a marked line for them |
| `HostsUndo.RestoredMeaning` | common/hosts/hosts.go:105-154 | that one line means what the original did exactly when the original is undoable: it maps something, or has no own mark and, as a comment, fits the limit |
| `HostsUndo.UnmarkView` | common/hosts/line.go:89-95 | removing an own mark from a text keeps the address and hosts it maps |
| `HostsUndo.NameAlonePanics` | common/hosts/line.go:69-80 | of all lines, exactly the two that are the launcher's name alone make the restore pass panic once rewritten |
| `HostsUndo.RewritePanics` | common/hosts/hosts.go:98-158 | over all files, restoring rewritten lines panics exactly when one of them was the launcher's name alone |
| `HostsUndo.AddHostsPanics` | launcher-config-admin/internal/hosts/hosts.go:61-78 | the same for the whole file written, added mappings included |
| `HostsUndo.UnwrittenPanics` | launcher-config-admin/internal/hosts/hosts.go:61-78 | on a file left alone, the pass panics exactly on the comment that is the launcher's name |
| `HostsUndo.UndoRewrite` | common/hosts/hosts.go:98-158 | rewriting a file's lines and restoring them gives as many lines with the same entries, in order, exactly when every line is undoable |
| `HostsUndo.MappingLinesDropped` | common/hosts/mappings.go:26-40 | restoring drops every mapping line that was added |
| `HostsUndo.UndoAddHosts` | launcher-config-admin/internal/hosts/hosts.go:61-89 | adding mappings and restoring gives the same entries, comments and unparseable lines in order plus one blank line, exactly when every line is undoable |
| `HostsUndo.RestoreUnwritten` | common/hosts/hosts.go:276-280 | with the file left alone, restoring keeps it exactly when every line parses and none is own-marked |
| `HostsText.ScanTerminated` | common/hosts/hosts.go:314-321 | lines written with either line ending are read back as they were, but for a carriage return of their own before a lone line feed |
| `HostsText.FileTextTerminated` | common/hosts/hosts.go:314-322 | the text written, mappings included, is the written lines each with its line ending |
| `HostsText.JoinTerminated` | launcher-config-admin/internal/hosts/hosts.go:89 | joining lines that end in a blank one terminates the others |
| `HostsText.RewrittenClean` | common/hosts/hosts.go:142-154 | every line printed for a line that is not a comment ends in no carriage return, so the scanner keeps it |
| `HostsText.BackMeaning` | launcher-config-admin/internal/hosts/hosts.go:61-89 | a line written, read, restored and read again means what it did exactly when it is undoable in the file: it maps something, or is undoable and loses no carriage return on the way |
| `HostsText.RestoreFile` | common/hosts/hosts.go:213-240 | restoring the system's file restores the lines written and then the lines of what stayed of the old text |
| `HostsText.NothingLeft` | launcher-config-admin/internal/hosts/hosts.go:61-78 | the restore pass leaves nothing of some lines exactly when each does not parse, or maps something and is own-marked |
| `HostsText.UndoFile` | launcher-config-admin/internal/hosts/hosts.go:51-106 | for any text at all: writing over the system's file, reading, restoring, writing and reading again gives the same entries with no line added, exactly when every line is undoable in the file and every line that stayed of the old text is dropped |
| `HostsText.UndoShorterFile` | launcher-config-admin/internal/hosts/hosts.go:51-106 | the same exactly when every line is undoable in the file, if the old text is not longer than what is written over it |
| `HostsText.LongCommentLeavesTail` | common/hosts/hosts.go:288-322 | for any two address lines within the limits and not wanted, the first with a comment as long as the added mappings and the second line: both lines are undoable, and yet the file is not restored |
| `HostsText.GivenFileKeepsOld` | common/hosts/hosts.go:288-322 | at a given path the new lines go behind all the old ones as they were, exactly when the old text ended its last line |
| `HostsEffect.MissingExactly` | common/hosts/hosts.go:121-126 | the mappings added are exactly the wanted ones no line holds within its limits |
| `HostsEffect.KeptExactly` | common/hosts/hosts.go:120-135 | a line keeps each host as often as it stood, less the machine's own name and one mention of each mapping found |
| `HostsEffect.TakenExactly` | common/hosts/hosts.go:121-126 | a line takes from the map exactly the wanted mappings it holds, through the map's lookup and removal |
| `HostsEffect.FileActive` | common/hosts/hosts.go:105-154 | over a whole file, the rewritten lines keep every mention of a wanted mapping but one, and none of the machine's own name |
| `HostsEffect.WantedMapped` | common/hosts/hosts.go:98-158 | in the file written a wanted host has its address exactly when the file did not mention that mapping just once; the machine's own name, when it did not at all |
| `HostsResolve.FileKeeps` | common/hosts/hosts.go:98-158 | the rewritten lines give a wanted host the addresses the file gave it, in order, less the first mention of its mapping; the machine's own name none |
| `HostsResolve.WantedResolves` | common/hosts/hosts.go:98-158 | the first mention of a wanted host in the lines written has its address exactly when the file gave it none, or this one in its first two mentions; the machine's own name, when the file did not give it this one |
| `HostsResolve.FileResolves` | common/hosts/hosts.go:213-240 | in the system's file the first mention is that of the lines written or else of what stayed of the old text, so the address is as wanted exactly when those resolve it, or the file gave just that mapping and what stayed gives it again |
| `HostsResolve.OtherAddressStays` | common/hosts/hosts.go:127-154 | a host that the file's only line gives another address has that address after its mapping is added |
| `HostsResolve.UnwrittenResolves` | common/hosts/hosts.go:276-280 | a file left alone gives every wanted host its address, and as the first one exactly when it does so first, its lines being within the limits |
| `HostsEffect.PresentMappingCommentedOut` | common/hosts/hosts.go:121-147 | a mapping any file mentions just once ends up neither active nor added |
| `HostsEffect.UnwrittenHolds` | common/hosts/hosts.go:276-280 | the file is left alone exactly when it mentions every wanted mapping |
| `HostsEffect.AddFreshHosts` | common/hosts/hosts.go:71-77 | the host loop takes each host the first time it is seen |
| `HostsEffect.GetAllLines` | common/hosts/hosts.go:57-84 | the listing of a file's hosts, line by line |
| `HostsEffect.ListingFirstMention` | common/hosts/hosts.go:57-84 | in the listing each host of the file stands on exactly one line, with the address of its first mention |
| `OrderedMap.StoreLaws` | server/internal/Map.go:244-262 | storing keeps keys unique, adds a new key last, never moves a known one, and leaves other keys alone |
| `OrderedMap.DeleteLaws` | server/internal/Map.go:281-298 | deleting forgets one key, keeps the others' values, and leaves the other keys in their order |
| `OrderedMap.StoreDelete` | server/internal/Map.go:244-298 | deleting undoes the storing of a new key; storing again after a deletion puts the key last |
| `OrderedMap.PairsStore` | server/internal/Map.go:250-260 | updating the value map and the key list is storing the pair |
| `OrderedMap.PairsDelete` | server/internal/Map.go:286-289 | removing the key at its index and its value is deleting the pair |
| `OrderedMap.ShiftedIndexes` | server/internal/Map.go:290-294 | after the shift every key's index is its position again |
| `OrderedMap.SafeOrderedMap.constructor` | server/internal/Map.go:224-235 | a new map is empty, and its snapshot agrees |
| `OrderedMap.SafeOrderedMap.UpdateReadOnly` | server/internal/Map.go:237-242 | publishes a new copy that holds what the private state holds |
| `OrderedMap.SafeOrderedMap.Store` | server/internal/Map.go:244-279 | refines storing a pair, keeps keys, indexes and snapshot in agreement, and returns the value that counts |
| `OrderedMap.SafeOrderedMap.ShiftIndexes` | server/internal/Map.go:290-294 | exactly the indexes behind the removed one move down by one |
| `OrderedMap.SafeOrderedMap.Delete` | server/internal/Map.go:281-298 | refines deleting a pair, with the index shift |
| `OrderedMap.SafeOrderedMap.Load` | server/internal/Map.go:264-268 | readers of the snapshot find what the map holds |
| `OrderedMap.SafeOrderedMap.Len` | server/internal/Map.go:270-273 | the number of pairs |
| `OrderedMap.SafeOrderedMap.First` | server/internal/Map.go:345-354 | the first pair in order, or none |
| `OrderedMap.SafeOrderedMap.Iter` | server/internal/Map.go:340-343 | the iterator is over the pairs of this moment |
| `OrderedMap.OrderedData.Iterate` | server/internal/Map.go:308-316 | visits every pair once, in key order |
| `OrderedMap.SafeOrderedMap.IterAndStore` | server/internal/Map.go:300-306 | the callback sees the pairs before the store |
| `OrderedMap.IteratorUnmoved` | server/internal/Map.go:237-343 | an iterator taken before any run of writes yields the pairs of that moment, as each write publishes a new object |
| `PersistentStore.StepKeepsInv` | server/internal/models/persistentJsonData.go:166-298 | every step of every interleaving keeps file, raw cache and live data in agreement |
| `PersistentStore.RunKeepsInv` | server/internal/models/persistentJsonData.go:166-298 | so does every run, with failed callbacks, failed writes and reopenings |
| `PersistentStore.QuietStoreAgrees` | server/internal/models/persistentJsonData.go:214-298 | with no writer between cache and file, the file decodes to the cache and, for keys with no open section and no failed callback, each entry to its live value |
| `PersistentStore.LastReturnedSurvives` | server/internal/models/persistentJsonData.go:166-257 | closing and reopening gives back the value of each key's last successful section, and setting the key writes nothing |
| `PersistentStore.FailedCallbackStrays` | server/internal/models/persistentJsonData.go:259-282 | after a failed callback the file still holds the live value exactly when the callback had not changed it |
| `PersistentStore.SectionRun` | server/internal/models/persistentJsonData.go:277-298 | what one section on its own leaves in live data, cache and file, on each of its exits |
| `PersistentStore.SetRun` | server/internal/models/persistentJsonData.go:214-257 | what setting a key leaves, on each of its exits; a value read at its own version writes nothing |
| `PersistentStore.SetLaws` | server/internal/models/persistentJsonData.go:214-257 | setting a key changes nothing when it is live, newer or unreadable; otherwise it is live at the current version, with its default if it was missing and its file's object after each step in order if it was older, and then, unless the write fails, the file decodes to a map that holds it |
| `PersistentStore.ReopenLaws` | server/internal/models/persistentJsonData.go:166-212 | a file opens exactly when it decodes, is not newer and, if older, can be read; then the cache is its data, or its object after each step to the current version |
| `PersistentStore.PersistentStringJsonMap.constructor` | server/internal/models/persistentJsonData.go:166-212 | a new store holds nothing and writes an empty map at its version |
| `PersistentStore.PersistentStringJsonMap.InitialData` | server/internal/models/persistentJsonData.go:219-234 | chooses as the step model does: newer data is refused, older data upgraded from the file through every version, equal data read, missing data defaulted, as `PersistentStore.SetLaws` says without it |
| `PersistentStore.PersistentStringJsonMap.Set` | server/internal/models/persistentJsonData.go:214-257 | on the fields, does the steps of the step model; it fails exactly when the key is live, newer or unreadable, or a value stored anew cannot be written, and leaves what `PersistentStore.SetLaws` says |
| `PersistentStore.PersistentStringJsonMap.WithReadWrite` | server/internal/models/persistentJsonData.go:277-298 | on the fields, does the steps of the step model; it fails exactly when the key is not live, the callback fails or the write does; without error the live value is the one remembered |
| `PersistentStore.Upgrade` | server/internal/models/persistentJsonData.go:41-56 | reads the file as the object of the stored version and upgrades it once through every version to the current, or fails, or has nothing to do |
| `PersistentStore.UpgradedInStages` | server/internal/models/persistentJsonData.go:50-52 | upgrading through a version between is upgrading at once |
| `UserDataPath.TransformBack` | launcher-common/userData/userData.go:90-104 | an active path's isolated or backup path leads back to it exactly when the path has no extension |
| `UserDataPath.ExtExactly` | launcher-common/userData/userData.go:72-104 | an extension begins at the last dot of the last path element, and is empty without one |
| `UserDataPath.TransformCollides` | launcher-common/userData/userData.go:72-104 | two active paths share an isolated or backup path exactly when they share their stem |
| `Isolation.MoveOut` | launcher-config/internal/userData/backup.go:34-75 | the active folder, made if missing, is at the backup path, or nothing but an empty folder was added |
| `Isolation.MoveIn` | launcher-config/internal/userData/backup.go:91-112 | the incoming folder, made if missing, is active, or nothing but an empty folder was added |
| `Isolation.SwitchPaths` | launcher-config/internal/userData/backup.go:32-115 | success switches the folders; a failure whose rollback worked leaves all contents; other paths are untouched; without a fault it succeeds exactly when the backup path is free |
| `Isolation.SwitchData` | launcher-config/internal/userData/backup.go:18-30 | the same for backing up and restoring, on the three paths of a folder |
| `Isolation.MoveBack` | launcher-config/internal/userData/backup.go:78-89 | wherever the second half stopped, the one rollback step restores the contents |
| `Isolation.BackupChangeRestore` | launcher-config/internal/userData/backup.go:117-123 | backing up, changing the active folder and restoring gives the original content back and isolates the changed one |
| `Isolation.SwitchUndone` | launcher-config/internal/userData/backup.go:117-123 | a switch frees the path its reverse needs, and the two change no content |
| `Profiles.PlainNamesSeparate` | launcher-common/userData/userData.go:72-104 | different names without extensions share no paths |
| `Profiles.PlacesDisjoint` | launcher-common/userData/userData.go:90-104 | active paths with different stems share none of their six paths |
| `Profiles.CleanUp` | launcher-config/internal/userData/profileBackup.go:32-34 | the backward loop restores the contents of everything switched, when none of its steps fails |
| `Profiles.RunProfileMethod` | launcher-config/internal/userData/profileBackup.go:23-55 | stopping at a failure, all profiles are switched or, unless an undo step fails, all contents are as before, and without a fault it succeeds exactly when no path to move aside to is taken; going on, each profile is one or the other, and without a fault exactly those are switched whose path to move aside to is free |
| `Profiles.ListingKept` | launcher-config/internal/userData/profileBackup.go:9-21 | switching all the profiles leaves the listing of active ones as it was, so the undo works on the same ones |
| `CaCert.ReadFromData` | common/cert.go:50-84 | the certificates in order, their fingerprints, and an index to a place of each; an error exactly when one does not parse |
| `CaCert.CertsAppend` | common/cert.go:50-84 | reading a file appended to is reading both parts |
| `CaCert.CACert.Backup` | launcher-config/internal/cacert.go:26-61 | copies the CA file to a free backup path or, unless removing a half-written copy fails, leaves all as it was; without a fault it succeeds exactly when there is a CA file, and leaves an existing backup alone |
| `CaCert.CACert.Append` | launcher-config/internal/cacert.go:121-141 | the file is followed by all certificates in order, or on a failure by some of them from the first on, and no other file differs; without a fault it succeeds exactly when there is a CA file |
| `CaCert.CACert.SwapFiles` | launcher-config/internal/cacert.go:63-111 | the renames, their reverts in order, and the removal of the temporary file: all done or, if no temporary file was there at the start and no revert fails, all three paths as before; without a fault it succeeds exactly when no temporary file is there and both files parse, and a failure changes nothing |
| `CaCert.CACert.ReadBoth` | launcher-config/internal/cacert.go:95-106 | reads the changed and the restored file, failing only on a fault or an unparseable certificate |
| `CaCert.PickRemoved` | launcher-config/internal/cacert.go:112-118 | one certificate for each fingerprint that is gone |
| `CaCert.CACert.Restore` | launcher-config/internal/cacert.go:63-119 | success restores the backup and reports each removed fingerprint once; with no temporary file at the start an error leaves the files as before unless a revert fails, and without a fault always |
| `CaCert.BackupAppendRestore` | launcher-config/internal/cacert.go:26-141 | backup, append and restore give the original file, no extra file, and a report of exactly the certificates added that were not there, each once |
| `SetUpSaga.SetUp.StepUserCert` | launcher-config/internal/cmd/setUp.go:156-177 | the flag is raised exactly when the certificate parses and is added; a failed step has changed nothing, unless the addition took place all the same |
| `SetUpSaga.SetUp.StepMetadata` | launcher-config/internal/cmd/setUp.go:178-189 | the metadata folder is switched exactly when its flag is raised |
| `SetUpSaga.SetUp.StepProfiles` | launcher-config/internal/cmd/setUp.go:190-201 | the profiles are switched exactly when their flag is raised |
| `SetUpSaga.SetUp.StepGameCert` | launcher-config/internal/cmd/setUp.go:202-240 | the flag is raised exactly when the CA file is backed up, even if appending then fails |
| `SetUpSaga.SetUp.RunFolderSteps` | launcher-config/internal/cmd/setUp.go:178-201 | the two folder flags say what has been switched, at every exit |
| `SetUpSaga.SetUp.RunSteps` | launcher-config/internal/cmd/setUp.go:156-240 | at every exit the flags say what has been done, unless a rollback inside a step failed; without a failure everything asked for is done |
| `SetUpSaga.SwitchBack` | launcher-config/internal/cmd/setUp.go:70-79 | a folder switched, left alone and switched back holds what it held on all its paths |
| `SetUpSaga.ProfilesBack` | launcher-config/internal/cmd/setUp.go:77-79 | the same for all profiles |
| `SetUpSaga.FoldersBack` | launcher-config/internal/cmd/setUp.go:74-79 | the two folder steps and their undoing, in the order they were done, leave every content as at entry |
| `SetUpSaga.BackIsFree` | launcher-config/internal/cmd/setUp.go:74-79 | with the folders switched, nothing is in the way of switching them back |
| `SetUpSaga.CertsUndoneExactly` | launcher-config/internal/cmd/setUp.go:70-73 | adding a certificate and removing the own ones changes nothing exactly when no own one was there and the added one is own or was there |
| `SetUpSaga.ForeignCertStays` | launcher-common/cert/cert_darwin.go:79-95 | a certificate of another issuer is not removed |
| `SetUpSaga.OwnCertLost` | launcher-common/cert/cert_darwin.go:79-95 | an own certificate from before is removed with the added one |
| `SetUpSaga.CaUndoneExactly` | launcher-config/internal/cacert.go:26-111 | restoring undoes the backup and what was appended exactly when neither a backup nor a temporary file was there |
| `SetUpSaga.ExistingBackupTaken` | launcher-config/internal/cacert.go:31-34 | a backup from before is restored as the CA file, and is gone |
| `SetUpSaga.CaRestorable` | launcher-config/internal/cacert.go:63-111 | with readable files at entry and no temporary one, the restore has what it needs |
| `SetUpSaga.SetUp.RemoveUserCerts` | launcher-common/cert/cert_windows.go:47-92 | success removes exactly the own certificates; it fails only on a fault, or on Windows when there is none |
| `SetUpSaga.SetUp.UndoFolders` | launcher-config/internal/cmd/setUp.go:74-79 | folder contents are as at entry unless an undo operation fails, and none fails without a fault |
| `SetUpSaga.SetUp.UndoSetUp` | launcher-config/internal/cmd/setUp.go:70-89 | unless an undo operation fails, everything is as at entry exactly when what was done is reversible; without a fault none fails, given readable files and, on Windows, a certificate to remove |
| `SetUpSaga.SetUp.RunSetUp` | launcher-config/internal/cmd/setUp.go:99-301 | at every failing exit, except a failed admin step without the agent, and unless an undo operation fails, everything is as at entry exactly when what was done is reversible; for sound inputs it always is when nothing fails while undoing; success leaves everything set up; whatever fails, an invalid game, an invalid data path, missing local data and an unparseable user certificate are reported exactly for those inputs, and every other exit for its own cause; without a fault inputs and state at entry decide the exit |
| `SetUpSaga.EffectiveExactly` | launcher-config/internal/cmd/setUp.go:124-129 | AoE1 has no metadata, AoE1 and AoE4 no CA file, and nothing else that is asked for changes |
| `SetUpSaga.SetUp.SucceedsExactly` | launcher-config/internal/cmd/setUp.go:99-301 | without a fault a run succeeds exactly when game and data path are in order if folders are moved, the certificates parse and are accepted, the paths to move aside to are free, the CA file and its path are there, and what is left to others works |
| `SetUpSaga.SetUp.StateRefusals` | launcher-config/internal/cmd/setUp.go:184-244 | without a fault a path that is taken, or a CA file that is not there, is the only reason for that step's own exit, and appending never fails |
| `AgentProtocol.HandleHonest` | launcher-config-admin-agent/internal/ipc/ipc.go:90-175 | the agent's flags stay what is in place exactly when it is not the case that the command asks for something, is not refused, succeeds and has its log fail; nothing is done twice |
| `AgentProtocol.LostLogRunsTwice` | launcher-config-admin-agent/internal/ipc/ipc.go:130-142 | with a log lost, a set-up reported as failed is in place and runs again |
| `AgentProtocol.CodeExactly` | launcher-config-admin-agent/internal/ipc/ipc.go:90-175 | each refusal of a set-up has its own code, a revert of what is not set answers 0, and a run answers that its log is lost or its own exit code |
| `AgentProtocol.RunAnswersZero` | launcher-config-admin-agent/internal/ipc/ipc.go:140-144 | a run whose log is kept is answered 0 exactly when it succeeded or failed with that code, and otherwise its failure code |
| `AgentProtocol.AnswerZeroIsMade` | launcher-config-admin-agent/internal/ipc/ipc.go:90-175 | from an honest agent an answer 0 means the changes asked for are in place, or gone after a revert, exactly when it is not the code of a failed run |
| `AgentProtocol.FailedRunAnsweredZero` | launcher-config-admin-agent/internal/ipc/ipc.go:140-144 | a run that fails with exit code 0 is answered 0 with nothing mapped |
| `AgentProtocol.LostLogNotReverted` | launcher-config-admin-agent/internal/ipc/ipc.go:155-160 | after a set-up whose log was lost, its revert is answered 0 and reverts nothing |
| `AgentProtocol.ConfigAdminAgent.HandleSetUp` | launcher-config-admin-agent/internal/ipc/ipc.go:90-144 | the two flags and the exit code follow the handling function, on every branch; `AgentProtocol.CodeExactly` says which code |
| `AgentProtocol.ConfigAdminAgent.HandleRevert` | launcher-config-admin-agent/internal/ipc/ipc.go:146-175 | the same for reverting, where only what is set is reverted |
| `AgentProtocol.StepKeepsInv` | launcher-config/internal/admin/admin.go:161-306 | every step of client and agent keeps each connection in lock step |
| `AgentProtocol.ReadKeepsInv` | launcher-config-admin-agent/internal/ipc/ipc.go:21-84 | so does every read of the agent, from connections open, closed and left behind |
| `AgentProtocol.NextMessageHasItsType` | launcher-config-admin-agent/internal/ipc/ipc.go:21-96 | in every reachable state the next message has the type the agent is about to decode |
| `AgentProtocol.AnswersMatchCommands` | launcher-config/internal/admin/admin.go:241-306 | on every connection each code the client got is the agent's code for that very command; only the last may be unanswered |
| `AgentProtocol.AgentStaysHonest` | launcher-config-admin-agent/internal/ipc/ipc.go:18-175 | over any connections and commands, the flags are the outstanding changes and nothing was done twice, exactly as long as no changing run lost its log |
| `AgentProtocol.AnsweredZeroIsMade` | launcher-config/internal/admin/admin.go:241-306 | over any connections and commands, with no run failing with code 0: when a client gets the answer 0, what its command asks for is so, but for a revert after a run that lost its log |
| `AgentProtocol.CommandIsAnswered` | launcher-config/internal/admin/admin.go:241-306 | a command of a client that is served goes through both messages, is carried out, and is answered with the code for it |
| `AgentProtocol.ServedIsReady` | launcher-config-admin-agent/internal/ipc/ipc.go:21-96 | in every reachable state a client that is served and waits for nothing can send a command |
| `Sweeper.BaseSessions.CreateSession` | server/internal/models/baseSession.go:42-61 | takes the first generated id not in use and stores it with a full duration left, as a creation step of the timed model that keeps its invariant |
| `Sweeper.BaseSessions.ResetExpiryTimer` | server/internal/models/baseSession.go:124-130 | a renewal step of the timed model: the invariant is kept, a session that is there has a full duration left, and no other changes |
| `Sweeper.BaseSessions.Sweep` | server/internal/models/baseSession.go:83-88 | one turn of the loop is a scan step and then all its deletions, and panics exactly when the model does |
| `Sweeper.BaseSessions.NextExpiration` | server/internal/models/baseSession.go:94-122 | lists exactly the expired sessions, and the time to the earliest of the others or a full duration |
| `Sweeper.StepKeepsInv` | server/internal/models/baseSession.go:42-130 | every creation, renewal, deletion, scan and sweep keeps the timing invariant |
| `Sweeper.TickBeforeExpiry` | server/internal/models/baseSession.go:75-130 | in every run the armed tick is no later than the expiry of a live session exactly when the last scan had not found that session expired or it was created or renewed since |
| `Sweeper.AtomicSweep` | server/internal/models/baseSession.go:83-88 | an undisturbed sweep removes exactly the expired sessions and next ticks at the earliest remaining expiry; it panics exactly when a session expires at that instant |
| `Sweeper.RemovesUnexpired` | server/internal/models/baseSession.go:84-88 | in every run a deletion takes a session that has not expired exactly when it was created or renewed since the scan, less than a duration ago |
| `Sweeper.RenewedSessionSwept` | server/internal/models/baseSession.go:84-88 | any session found expired and renewed before its deletion is deleted all the same |
| `Messages.SessionData.WaitForMessages` | server/internal/models/session.go:55-79 | messages come in order, none lost or repeated; the number moves only when fewer came than the channel holds, and then the channel is empty |
| `Messages.SessionData.ReadSession` | server/internal/routes/game/login/readSession.go:25-35 | over any number of polls, what was returned and what is queued is what was sent, in order |
| `Lobby.NewPeerLaws` | server/internal/models/advertisement.go:385-395 | adds the user to that lobby alone; a gone lobby stays gone; the invariant is kept |
| `Lobby.RemovePeerLaws` | server/internal/models/advertisement.go:398-415 | the user leaves that lobby alone, and the lobby goes exactly when it had no other peer |
| `Lobby.StepKeepsInv` | server/internal/models/advertisement.go:385-415 | every locked block keeps peers unique and in joining order, and only pending lobbies without peers |
| `Lobby.PeerlessIsPending` | server/internal/routes/game/advertisement/host.go:111-133 | over every interleaving, a stored lobby has no peers only while its Host has not added the first |
| `Lobby.NoRevival` | server/internal/models/advertisement.go:385-395 | no later block but a Host storing that id anew brings a removed lobby back |
| `Lobby.UserAdvertisementFinds` | server/internal/models/advertisement.go:534-586 | the search finds a lobby with the user exactly when there is one |
| `Lobby.LeaveCurrentLaws` | server/internal/routes/game/advertisement/join.go:52-59 | after leaving, a user that was in one lobby at most is in none |
| `Lobby.JoinLaws` | server/internal/routes/game/advertisement/join.go:52-109 | outside AoE4 the user first leaves as by logging out; then a lobby that is there and of the party asked for has the user besides the peers left in it, and nothing else changes |
| `Lobby.HostRequestLaws` | server/internal/routes/game/advertisement/host.go:96-133 | after the same leaving, a free id holds a lobby of that party with the user as host and only peer, and nothing else changes |
| `Lobby.LeaveLaws` | server/internal/routes/game/advertisement/leave.go:17-27 | the user is out of that lobby and no one else is |
| `Lobby.LogoutLaws` | server/internal/routes/game/login/logout.go:25-29 | the user is out of the first lobby, in store order, that had it, and nothing else changes |
| `Lobby.UpdateHostLaws` | server/internal/routes/game/party/updateHost.go:26-41 | the first peer that asks becomes the host; nothing else changes, and nothing at all for anyone else |
| `Lobby.AddPeersLaws` | server/internal/routes/game/party/peerAdd.go:23-57 | the host that asks adds all the users, if all exist; nothing else changes |
| `Lobby.RequestKeepsSettled` | server/internal/routes/game/advertisement/join.go:34-115 | every whole request, PeerAdd included, keeps the invariant and leaves no Host half done |
| `Lobby.BlockKeepsOneEach` | server/internal/models/advertisement.go:385-415 | a locked block keeps every user in one lobby exactly when it adds no user that is in another |
| `Lobby.RunKeepsOneEach` | server/internal/models/advertisement.go:385-415 | over every interleaving, users stay in one lobby exactly when no block adds one that is in another |
| `Lobby.InterleavedJoins` | server/internal/routes/game/advertisement/join.go:52-109 | whatever the game, two joins of one user that both found no lobby to leave put it in two |
| `Lobby.RequestKeepsOneEach` | server/internal/routes/game/advertisement/host.go:96-133 | a request keeps every user in one lobby exactly when it adds none that is in another: a Host or Join outside AoE4 never does, in AoE4 exactly when the user is in another lobby |
| `Lobby.ServeKeepsOneEach` | server/internal/routes/game/advertisement/host.go:96-133 | over all runs of requests, users stay in one lobby exactly when no request adds one that is in another |
| `Lobby.ServedLobbies` | server/internal/routes/game/advertisement/host.go:96-133 | over all runs of requests, PeerAdd included: no lobby without peers, and peers in joining order; outside AoE4 and without PeerAdd, one lobby a user |
| `Lobby.PeerAddKeepsOneEach` | server/internal/routes/game/party/peerAdd.go:23-57 | adding peers keeps users in one lobby exactly when none of those added is in another |
| `Lobby.HostIsLongestStaying` | server/internal/routes/game/party/updateHost.go:29-43 | in every state any interleaving of blocks reaches, PeerAdd included, an undisturbed request hands a lobby only to the remaining peer that joined before all others |
| `Lobby.InterleavedUpdateHost` | server/internal/routes/game/party/updateHost.go:26-41 | with any blocks between the check and the change: a lobby still there is handed to a user that is no peer of it exactly when the last of them about that user took it out; if none took it out, the user is still the peer that joined first |
| `Lobby.LeaverBecomesHost` | server/internal/routes/game/party/updateHost.go:26-41 | any first peer that leaves others behind between the check and the change becomes the host of a lobby it is not in |
| `LobbyStore.MainAdvertisements.UnsafeNewPeer` | server/internal/models/advertisement.go:385-395 | on the objects, adds the peer as the block of the model does and touches no other lobby's objects |
| `LobbyStore.MainAdvertisements.UnsafeRemovePeer` | server/internal/models/advertisement.go:398-415 | on the objects, removes the peer, and the lobby from the store with its last one |
| `LobbyStore.MainAdvertisements.GetUserAdvertisement` | server/internal/models/advertisement.go:576-586 | the first lobby, in store order, that has the user |
| `LobbyStore.MainAdvertisements.Store` | server/internal/models/advertisement.go:259-328 | puts a new object, sharing nothing with the others, last in the store |
| `LobbyStore.MainAdvertisements.Host` | server/internal/routes/game/advertisement/host.go:96-138 | on the objects, leaves the old lobby, stores the new one and adds its first peer; it answers yes exactly when the new id was free; the lobbies are then as `Lobby.HostRequestLaws` says |
| `LobbyStore.MainAdvertisements.Join` | server/internal/routes/game/advertisement/join.go:52-109 | leaves the old lobby before knowing whether the new one can be joined; it answers yes exactly when the new one, with the old one left, is there and is of the party asked for; the lobbies are then as `Lobby.JoinLaws` says |
| `LobbyStore.MainAdvertisements.Leave` | server/internal/routes/game/advertisement/leave.go:11-33 | removes the user from the lobby it names, and answers yes exactly when it was a peer there; the lobbies are then as `Lobby.LeaveLaws` says |
| `LobbyStore.MainAdvertisements.Logout` | server/internal/routes/game/login/logout.go:25-29 | removes the user from its lobby; the lobbies are then as `Lobby.LogoutLaws` says |
| `LobbyStore.MainAdvertisements.UpdateHost` | server/internal/routes/game/party/updateHost.go:14-46 | only the first peer becomes host, and is answered yes; the lobbies are then as `Lobby.UpdateHostLaws` says |
| `LobbyStore.MainAdvertisements.AddPeers` | server/internal/routes/game/party/peerAdd.go:23-57 | adds all users or none, and succeeds exactly when the host asks and all users exist, in any state of the store |
| `Targets.BinaryTargets.AddTarget` | tools/scripts/internal/goreleaser/binary.go:29-44 | adds instruction sets to a target, making room for it, or panics on one that does not exist |
| `Targets.AddToAdds` | tools/scripts/internal/goreleaser/binary.go:29-44 | the instruction sets join those at the target, if any, and no other target changes |
| `Targets.BinaryTargets.Clone` | tools/scripts/internal/goreleaser/binary.go:11-27 | a new object with the same targets |
| `Targets.MergeArchs` | tools/scripts/internal/goreleaser/archive.go:99-123 | the loop over architectures computes what two systems share |
| `Targets.MergeOne` | tools/scripts/internal/goreleaser/archive.go:92-130 | the loop over systems computes what two target maps share |
| `Targets.NewMergedTargets` | tools/scripts/internal/goreleaser/archive.go:89-131 | the merge of all archives, one after another |
| `Targets.MergeIsIntersection` | tools/scripts/internal/goreleaser/archive.go:89-131 | a target is in the merge exactly when it is in every archive, an empty instruction set meaning all |
| `Targets.CoverageDecides` | tools/scripts/internal/goreleaser/binary.go:5 | target maps that cover the same targets are equal |
| `Targets.MergeOrderIrrelevant` | tools/scripts/internal/goreleaser/archive.go:89-131 | the order and repetition of archives does not matter |
| `WinePath.WindowsToUnixPath` | config-helper/winepath_windows.go:42-90 | the loop ends for every input and oracle and computes the conversion function |
| `WinePath.TrimmedSpace` | config-helper/winepath_windows.go:47 | the path converted is the text without the white space around it |
| `WinePath.ConvertIsLongest` | config-helper/winepath_windows.go:50-88 | a path converts exactly when it holds no NUL, a prefix cut at a separator resolves and no component cut off the longest such holds an invalid character; the result is the oracle's answer for it followed by those components in order |
| `WinePath.UnresolvableMeansNone` | config-helper/winepath_windows.go:69-86 | giving up means neither the path nor a prefix cut at a separator resolves |
| `Broadcast.AddToSlice` | tools/mock/battle-server/internal/broadcast_windows.go:13-16 | copies into the slice up to its end, moves the index by the whole source, and changes nothing else |
| `Broadcast.Build` | tools/mock/battle-server/internal/broadcast_windows.go:32-48 | the packet holds all fields, and the last write ends at its length, which leaves the index two short of it |
| `Broadcast.Parse` | common/battleServer/broadcast.go:22-50 | reading step by step gives the fields at their positions, an error, a message beside a size error, or a panic |
| `Broadcast.PacketFields` | tools/mock/battle-server/internal/broadcast_windows.go:32-48 | where each field of a packet stands |
| `Broadcast.LowByteFirst` | tools/mock/battle-server/internal/broadcast_windows.go:40-48 | numbers stand with their low byte first |
| `Broadcast.BufferFields` | common/battleServer/broadcast.go:27-48 | the same fields where the parser reads them, at the head of any buffer |
| `Broadcast.ParsePacket` | common/battleServer/broadcast.go:22-50 | parsing a built packet gives the message back exactly for names of 1 to 65535 bytes, whatever follows it in the buffer; an empty name is invalid data, a longer one is cut and reported |
| `Broadcast.ParsedIsPacket` | common/battleServer/broadcast.go:22-50 | only the packet of a message is read as that message |
| `ArgsStore.ArgsStore.Load` | launcher-common/argsStore.go:29-44 | the flags hold no separator and join to the file's text; none when it does not exist |
| `ArgsStore.LoadedFlags` | launcher-common/argsStore.go:14-16 | no other flags without separators join to that text |
| `ArgsStore.ArgsStore.Store` | launcher-common/argsStore.go:46-74 | writing over the file without truncating it leaves exactly the old flags and the new ones |
| `ArgsStore.JoinExtends` | launcher-common/argsStore.go:46-74 | the text written always extends the text read, which is why nothing is left behind it |
| `ArgsStore.NewFlagsFrom` | launcher-common/argsStore.go:57-63 | every given flag that was not there is added, and no other |
| `ArgsStore.StoredFlagsLoad` | launcher-common/argsStore.go:14-16 | the stored flags are read back exactly when no new one holds the separator |

## Left out

Outside the model, and taken as parameters, inverse pairs or assumptions:

- IP and host text (idna), JSON, PEM, UUID text and gob are pairs of inverse functions; `HostLine.Env.Valid`, `PersistentStore.Codec.Valid` and `Broadcast.GuidText.Valid` say what is assumed of them.
- A character stands for one byte, and white space is ASCII white space; encodings of the hosts file and the scanner's token limit are not modelled.
- The copying of the hosts file to its temporary file and back: the model is of the text that ends up in it, the new one over the old one, or behind it at a given path. Its faults, and what a run that fails half-way leaves, are not modelled.
- The whole-file backup of the hosts file, and restoring from it instead of in place.
- The Darwin line splitter.
- Mutual exclusion of the per-key read-write lock: locked blocks are atomic steps.
- Sockets, process handling, unknown actions to the agent, and killing it.
- The user's certificate store of Linux, which the set-up never uses there.
- Signals during the set-up, and the side files for hosts and certificates it writes on request.
- `SafeMap`, `SafeSet` and the read-only ordered map: easier than the ordered map that is modelled.
- The encoding, paging and filtering of the lobby listing, and the merge of files and binaries of archives.
- That every host resolves to the server once mappings are added: it does not, see `HostsResolve.WantedResolves` for the exact condition and `HostsResolve.OtherAddressStays` for an input.

Stated weaker, or on values:

- HostsFile.HostMappings.Lines: the order of a Go map is any enumeration of its keys.
- HostsText.UndoFile: on the system's file; `HostsText.GivenFileKeepsOld` is about a file at a given path, which the revert removes.
- OrderedMap.SafeOrderedMap.UpdateReadOnly: the map and the list are values held in one object, so publishing a new object stands for cloning both.
- OrderedMap.IteratorUnmoved: it rests on the new objects that are published, not on the cloning of the list and the map they hold.
- PersistentStore.StepKeepsInv: reading the file as an older object is a function of its text, and a key is upgraded in one step with that reading; truncating and seeking count as part of the file write that may fail.
- Isolation.MoveOut: the search for the nearest existing ancestor and the creation of the folders below it are one operation that may fail; the file system is flat, so folders inside folders are not related.
- Profiles.RunProfileMethod: the profiles are a list, read once; `Profiles.ListingKept` says a second listing is equal.
- CaCert.CACert.Append: a PEM file is a list of blocks, so a CA file without a final line feed is not distinguished.
- AgentProtocol.StepKeepsInv: the streams are reliable and first-in first-out, and a failed configuration run changes nothing; an error of its execution is a failure with code 0.
- Sweeper.StepKeepsInv: a session's expiry is computed at the instant it is stored, a moment later than in the source; durations are positive.
- Sweeper.BaseSessions.CreateSession: the id generator is a list of ids; with a generator that repeats one id in use the source does not end.
- Sweeper.BaseSessions.NextExpiration: the source sorts all times and uses the first; the model finds the first.
- Lobby.StepKeepsInv: a Host takes an id not in use; a peer's other data than its joining are not modelled.
- Lobby.RequestKeepsSettled: requests run one at a time; `Lobby.RunKeepsOneEach` is about their blocks interleaved.
- LobbyStore.MainAdvertisements.Host: the party check answers with an error but goes on, so the second answer of that request is not modelled.
- LobbyStore.MainAdvertisements.Join: its check of the lobby's settings returns only from the closure it is in, so it admits everyone.
- LobbyStore.MainAdvertisements.UpdateHost: the check and the block are run without others between them; `Lobby.InterleavedUpdateHost` says what others do.
- Lobby.InterleavedUpdateHost: between the check and the block no Host stores that id anew; the source's block would then change the object of the lobby that is gone.
- LobbyStore.MainAdvertisements.AddPeers: adding cannot fail half-way under the lock, so the rollback is not reachable.
- Messages.SessionData.WaitForMessages: the timer wins after a given number of selects, as every poll ends after some number.
- WinePath.ConvertIsLongest: Wine's call is there and is an oracle that answers the same for the same path.
- Broadcast.Parse: a slice's capacity is the rest of the buffer it was cut from.
- ArgsStore.ArgsStore.Store: opening, reading and writing the file do not fail.

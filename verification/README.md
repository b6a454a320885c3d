# Agent Shell: verified models

Dafny models of the parts of Agent Shell whose correctness spans several functions or a whole
sequence of events, with proofs of what those parts promise. `dafny verify dfyconfig.toml` checks
everything.

| module | what it models |
|---|---|
| `Text`, `Paging` | bytes, splitting and joining, white space, page arithmetic |
| `FileTree`, `FileAccess`, `FileOperations`, `CommandOutcomes`, `FileManager` | the managed file tree, who may change what, every command on values with all its outcomes, and the service object that runs them in place |
| `UploadProtocol`, `UploadOutcomes` | uploads as interleaved steps (prepare, temporary file, chunks, commit, clean-up) beside every other command |
| `ArchiveWalk` | archive selection, the explicit-stack walk and the preview |
| `FormatTemplate` | the two-pass validator of prompt templates |
| `VirtualPaths`, `FilesystemBlock`, `BlockSegments` | path normalisation and the validator of filesystem blocks |
| `EntityDecoder`, `ResponseCapture` | chains of streaming content decoders, and the capture of observed HTTP exchanges |
| `ManagementAuth` | the credential controller shared by concurrent retrying requests |
| `SseJsonParser` | the incremental event-stream parser |
| `ForwardedHeader`, `ForwardedReading`, `QuotedPairs`, `QuotedMeaning` | the Forwarded header, with and without quoted pairs, and the choice of the client address |
| `DependencyClosure`, `NodeClosure` | the package closures of the third-party notices |
| `EventFeed` | listing, paging and deleting over three event stores |
| `DataTable`, `ConfigurationValidation` | two loaders in which only the newest request counts |
| `SnapshotWriter` | the writer that skips dumps with an unchanged digest |

## How the code is represented

- A coroutine is cut at its awaits. What lies between two awaits is one method or one step, and a
  sequence of steps is any interleaving. Clocks, disk failures, cancellations, replies and the
  consumer's choices are arguments of the steps.
- Classes whose methods update fields are classes; each method is tied to a function of the old state
  or to an invariant (`Valid`, `Keeps`) that every method keeps.
- Libraries are parameters: a compression library is a streaming codec with the law that splitting its
  input changes nothing, the `ipaddress` parser and the JSON parser are partial functions, a digest is
  a function without collisions.

Some intended properties hold only under a condition that the code does not enforce. The model keeps
the code as it is, proves exactly when the property holds, and gives inputs for which it does not:

- Temporaries keep exactly the received chunks through a command if and only if the command is neither
  a granted delete around the directory of a receiving upload nor a rename that moves the directory of
  an active upload whose temporary exists (`UploadProtocol.CommandStaged`); a run keeps them at every
  point if and only if no command of it does either (`UploadProtocol.StagedThroughout`). Deleting and
  remaking the directory loses the earlier chunks (`UploadProtocol.RecreatedDirectoryLosesChunks`).
- A chain with deflate decoders answers for chunks what it answers for the whole body if and only if the
  decoders chosen on the first chunk are those chosen on the body, or the body is refused anyway
  (`EntityDecoder.ChainChunking`); for a single decoder the failing case is that the zlib form takes the
  first chunk, rejects the body and the raw form takes it (`EntityDecoder.DeflateChunking`).
- A run discards only tokens whose request was refused if and only if no fetch ends the drain of a refused
  response, after which it asks again as invalid, while a token is held
  (`ManagementAuth.DiscardsDeservedExactly`). A token submitted during such a drain is thrown away
  (`ManagementAuth.SubmitDuringDrainIsLost`).
- Whether a virtual directory may be put on a file of another one depends on their order in the list:
  exchanging two neighbours of an accepted block keeps it accepted if and only if the second one's root is
  no file of the first (`FilesystemBlock.OrderDecides`), and an accepted block can have a file target that
  is a directory target as well (`FilesystemBlock.OrderDecidesExample`).
- The outer split of a Forwarded header drops the backslashes of quoted pairs, and the inner split reads
  the result as quotes and pairs again. An element is split into its own parameters if and only if
  every value survives that: its bare quotes leave the value open, no semicolon stands outside them and
  no backslash inside (`QuotedPairs.ElementIsSplitExactly`); a header is read as it means under the same
  condition (`QuotedMeaning.HeaderIsReadExactly`). Pairs of ordinary characters do no harm, and without
  backslashes and semicolons a value survives exactly with an even number of quotes
  (`QuotedPairs.OrdinaryPairsSurvive`); one quote in a host makes the header refused
  (`QuotedMeaning.QuotedPairBreaksAHeader`).
- The nearest-ancestor search finds the deepest candidate for all packages and names if and only if the
  importing path has no package called `node_modules` directly below another one
  (`DependencyClosure.ResolutionIsDeepestExactly`).
- A Node package whose requirement is missing stays visited when an optional dependency swallows the failure,
  so the outcome depends on the order of the names (`NodeClosure.OrderDecidesFailure`). Without optional
  dependencies the collection fails if and only if a reachable requirement is not locked
  (`NodeClosure.FailsExactly`).
- A returning sync leaves another content on disk if and only if an earlier `chmod` failed for another
  content than the one last written and nothing else was written completely since
  (`SnapshotWriter.WhenSkippingMisleads`).

## Model

| member | source | states |
|---|---|---|
| FileAccess.PartsAcceptsExactlyPrintedPaths | server/src/agent_shell/file_manager.py:189-218 | path parsing succeeds with given parts if and only if the parts are valid segments below `data` and the text is exactly their slash-joined print |
| FileAccess.PlainNamesAreValid | server/src/agent_shell/file_manager.py:144-160 | a name longer than any device name, made of permitted characters without dots, is a segment unless it ends in a space or has the temporaries' prefix; so is one with such an extension |
| FileAccess.DeviceNamesAreRefused | server/src/agent_shell/file_manager.py:144-160 | every Windows device name is refused in any case and with any extension |
| FileAccess.Require | server/src/agent_shell/file_manager.py:336-345 | a granted capability names an existing entry of the reported kind; rename and delete are granted only on editable entries that are no protected root, write, create and upload only on editable ones |
| FileAccess.MutableSubtree | server/src/agent_shell/file_manager.py:234-292 | below an editable unprotected entry everything is editable and unprotected |
| FileAccess.MissingAncestorIsEditable | server/src/agent_shell/file_manager.py:234-252 | an ancestor of an editable path that does not exist yet is editable itself, so creating parents stays inside the editable area |
| CommandOutcomes.AccessModes | server/src/agent_shell/file_manager.py:234-252 | which paths are editable, readable or only walked through, by the folder or repository folder they lie in; every other path is unknown |
| CommandOutcomes.GrantedExactly | server/src/agent_shell/file_manager.py:287-345 | for every access mode, kind and protection the exact set of granted capabilities, and none on a path that cannot be named, is unknown or is missing |
| CommandOutcomes.RefusalMeans | server/src/agent_shell/file_manager.py:336-345 | the error of a refused capability by its cause |
| FileTree.MkdirParents | server/src/agent_shell/file_manager.py:453-456 | making a directory with its parents fails if and only if a file is on the way; otherwise it adds nothing but missing directories on the way and keeps the tree well formed |
| FileTree.MoveTreeMoves | server/src/agent_shell/file_manager.py:834-835 | a rename carries the whole subtree with its contents to the new name, leaves nothing at the old one, changes nothing elsewhere, and makes no orphan |
| FileTree.MoveTreeBack | server/src/agent_shell/file_manager.py:834-835 | renaming a subtree and renaming it back gives the original tree |
| FileOperations.CreationTargetMeaning | server/src/agent_shell/file_manager.py:443-464 | a creation target is accepted if and only if its path is editable, no protected root and has no file among its ancestors; an accepted one adds only directories on the way to it, a refused one adds nothing |
| CommandOutcomes.CreateMeaning | server/src/agent_shell/file_manager.py:466-501 | creating succeeds if and only if the path is creatable and vacant; it then adds the entry and missing directories on the way, and otherwise changes nothing |
| CommandOutcomes.CreationRefusal | server/src/agent_shell/file_manager.py:443-464 | the error of a refused creation target by its cause |
| CommandOutcomes.SaveMeaning | server/src/agent_shell/file_manager.py:788-815 | a save succeeds if and only if the path is an editable file whose content has the given revision; it replaces that content only, and a stale revision is a conflict |
| CommandOutcomes.DeleteMeaning | server/src/agent_shell/file_manager.py:847-861 | a delete succeeds if and only if the entry exists, is editable and is no protected root; it removes exactly its subtree |
| CommandOutcomes.PrepareMeaning | server/src/agent_shell/file_manager.py:510-534 | an upload is accepted if and only if its path is creatable and vacant or, with overwrite, a file; each refusal has its error |
| CommandOutcomes.PublishMeaning | server/src/agent_shell/file_manager.py:60-75 | publishing an existing temporary replaces the target if and only if it is vacant or a file that may be overwritten; the target then holds the content, the temporary is gone and nothing else changed |
| FileOperations.CreateEntryKeeps | server/src/agent_shell/file_manager.py:466-501 | creating a directory or text file keeps the tree well formed, every non-editable entry untouched and every protected root in place |
| FileOperations.RenameMeaning | server/src/agent_shell/file_manager.py:817-845 | the complete list of outcomes of a rename by cause; the second access check never refuses |
| FileOperations.RenameRoundTrip | server/src/agent_shell/file_manager.py:817-845 | after a successful rename, renaming back is accepted and restores the tree |
| FileOperations.RenameKeeps | server/src/agent_shell/file_manager.py:817-845 | a rename keeps well-formedness, non-editable entries and protected roots |
| FileOperations.DeleteKeeps | server/src/agent_shell/file_manager.py:847-861 | a delete keeps well-formedness, non-editable entries and protected roots |
| FileOperations.PublishKeeps | server/src/agent_shell/file_manager.py:539-544 | publishing an upload keeps well-formedness, non-editable entries and protected roots, whether it succeeds or fails |
| FileOperations.KeepsModes | server/src/agent_shell/file_manager.py:234-252 | whatever keeps non-editable entries also keeps the access mode of every path |
| FileManager.FileManagerService.MakeCreationTarget | server/src/agent_shell/file_manager.py:443-464 | the object's tree and answer are those of the specified creation target, and the invariant is kept |
| FileManager.FileManagerService.CreateDirectory | server/src/agent_shell/file_manager.py:466-480 | succeeds if and only if the path is creatable and vacant; it is then a directory, and a failure changes nothing |
| FileManager.FileManagerService.CreateTextFile | server/src/agent_shell/file_manager.py:482-501 | succeeds under the same condition with an empty file and answers the revision of empty content |
| FileManager.FileManagerService.Prepare | server/src/agent_shell/file_manager.py:510-534 | the locked first step of an upload succeeds if and only if the path is creatable and vacant or, with overwrite, a file |
| FileManager.FileManagerService.Commit | server/src/agent_shell/file_manager.py:539-544 | the locked last step replaces the target if and only if it is vacant or a file that may be overwritten, and otherwise changes nothing |
| FileManager.FileManagerService.SaveTextFile | server/src/agent_shell/file_manager.py:788-815 | a failed save changes nothing; a successful one changes the specified file only |
| FileManager.FileManagerService.Rename | server/src/agent_shell/file_manager.py:817-845 | a failed rename changes nothing; a successful one moves the subtree |
| FileManager.FileManagerService.DeletePath | server/src/agent_shell/file_manager.py:847-861 | succeeds if and only if the entry exists, is editable and unprotected, and removes exactly it and what is below it |
| UploadProtocol.EveryRunKeeps | server/src/agent_shell/file_manager.py:443-567 | over every interleaving of commands and upload steps the tree stays well formed, non-editable entries are untouched, protected roots keep existence and kind, and no path changes its access mode |
| UploadProtocol.NextSound | server/src/agent_shell/file_manager.py:503-567 | every single step keeps registered uploads aimed at editable unprotected targets |
| UploadProtocol.VisibleChanges | server/src/agent_shell/file_manager.py:503-567 | the only ways a step changes what a reader finds: a finished command, a made parent directory, or the commit of all chunks of one upload, which replaces a file only with overwrite |
| UploadOutcomes.PrepareRegisters | server/src/agent_shell/file_manager.py:510-536 | a new upload is registered if and only if its path is creatable and vacant or, with overwrite, a file, and no cancellation arrived |
| UploadOutcomes.OpenStarts | server/src/agent_shell/file_manager.py:549-551 | an upload starts receiving if and only if its temporary's name is free and its directory still exists |
| UploadOutcomes.AppendAdds | server/src/agent_shell/file_manager.py:552-553 | a chunk is added to the temporary and to what was received; a failed write leaves what reached the disk and fails the upload |
| UploadOutcomes.CommitPublishes | server/src/agent_shell/file_manager.py:539-554 | the commit of a staged upload publishes all received chunks, removes the temporary and ends the upload if and only if the target is vacant or a file with overwrite; otherwise the tree is untouched and the upload fails |
| UploadOutcomes.FailureCleansUp | server/src/agent_shell/file_manager.py:555-566 | a failed or cancelled upload ends with its temporary removed and nothing else changed |
| UploadOutcomes.UploadSucceeds | server/src/agent_shell/file_manager.py:503-567 | an upload that no error and no other request hits ends with the target holding exactly its chunks, in order, and beside that only missing directories made |
| UploadOutcomes.EmptyStateIsSound | server/src/agent_shell/file_manager.py:503-567 | the assumptions of the run theorems can be met: an empty data root without uploads is sound and staged |
| UploadProtocol.CommandStaged | server/src/agent_shell/file_manager.py:817-861 | after any command the temporaries of receiving uploads hold exactly their chunks, and belong to active uploads, if and only if the command does not displace an upload |
| UploadProtocol.NextStaged | server/src/agent_shell/file_manager.py:503-567 | the same for every step: the upload steps always keep the temporaries exact, a command exactly when it displaces no upload |
| UploadProtocol.StagedThroughout | server/src/agent_shell/file_manager.py:503-567 | a run is undisturbed if and only if the temporaries are exact after every prefix of it |
| UploadProtocol.MovedTemporaryIsLost | server/src/agent_shell/file_manager.py:834-835 | moving the directory of an active upload whose temporary exists breaks this |
| UploadProtocol.EveryRunStages | server/src/agent_shell/file_manager.py:549-553 | over every undisturbed interleaving a receiving upload's temporary holds exactly the chunks received so far, and every temporary belongs to an active upload |
| UploadProtocol.ReadersSeeWholeFiles | server/src/agent_shell/file_manager.py:503-567 | over every undisturbed interleaving the content of every visible file was there from the start, or the last step that changed what is at its path stored it whole (created empty, saved, or all chunks of one committed upload) or moved it there from a path of which the same holds |
| UploadProtocol.NoTemporaryLeft | server/src/agent_shell/file_manager.py:554-566 | a finished, failed or cancelled upload leaves no temporary; without active uploads there is none |
| UploadProtocol.SaveReplacesNamedContent | server/src/agent_shell/file_manager.py:788-815 | with a collision-free digest a save succeeds if and only if the editable file holds the content its revision names, and then replaces exactly that |
| UploadProtocol.RecreatedDirectoryLosesChunks | server/src/agent_shell/file_manager.py:63-65 | deleting and remaking the directory of any receiving upload lets it publish the later chunks only |
| UploadProtocol.DirectoryEmptied | server/src/agent_shell/file_manager.py:847-861 | deleting an editable directory and creating it again leaves it empty and the rest unchanged |
| ArchiveWalk.ArchiveEntries | server/src/agent_shell/file_manager.py:613-665 | the stack walk ends, yields each non-temporary entry of the subtree exactly once, with names and sizes right and totals equal to the recursive specification, in the recursive order: a directory, all its children in scan order, then what is below each child directory |
| ArchiveWalk.WalkStep | server/src/agent_shell/file_manager.py:628-665 | one turn of the loop keeps the walk's invariant (yielded once, parents first, pending directories not yet expanded, nothing forgotten) |
| ArchiveWalk.WalkComplete | server/src/agent_shell/file_manager.py:628 | with an empty stack every selected entry was yielded |
| ArchiveWalk.BelowSplits | server/src/agent_shell/file_manager.py:634-665 | the recursive totals of a directory are what one scan yields plus what its child directories still owe |
| ArchiveWalk.TotalsStep | server/src/agent_shell/file_manager.py:628-665 | one turn of the loop keeps the sum of what was yielded and what is outstanding |
| ArchiveWalk.PushedChildren | server/src/agent_shell/file_manager.py:665 | child directories pushed in reverse are popped in scan order, each with all that is below it |
| ArchiveWalk.PreviewArchive | server/src/agent_shell/file_manager.py:667-682 | the preview's counts and size equal the recursive totals over all targets |
| ArchiveWalk.ArchiveTargets | server/src/agent_shell/file_manager.py:586-611 | a selection is accepted if and only if it is non-empty, every path resolves with the archive capability, and different targets have different names; repeated paths count once |
| ArchiveWalk.ArchiveNamesDiffer | server/src/agent_shell/file_manager.py:646-651 | two members of one archive have the same archive name only if they are the same entry of the same target |
| ArchiveWalk.ArchiveNameMeans | server/src/agent_shell/file_manager.py:613-663 | a member's name ends in a slash if and only if it is a directory, its segments are the target's name and the way to the entry, and its size is that of the content |
| FormatTemplate.Validate | server/src/agent_shell/contracts.py:76-127 | a template is accepted if and only if it is made of brace-free text, doubled braces and allowed placeholders and names every required field; otherwise the missing names are reported exactly |
| FormatTemplate.CheckPlaceholders | server/src/agent_shell/contracts.py:101-115 | the second scan ends on every text the first pass accepted and accepts exactly the texts of the grammar |
| FormatTemplate.CollectFields | server/src/agent_shell/contracts.py:84-100 | the first loop accepts exactly when the format-string parser's items are allowed plain fields, with the set of names seen |
| FormatTemplate.FieldIsRead | server/src/agent_shell/contracts.py:84-100 | a written replacement field, with or without an index in brackets, a conversion and a specification with nested braces, is read as these parts, whatever follows |
| FormatTemplate.FirstPassFindsClosing | server/src/agent_shell/contracts.py:110-115 | after the first pass every single opening brace has a closing one, so the search never gives -1 |
| FormatTemplate.ReadsExactlyPrinted | server/src/agent_shell/contracts.py:101-115 | printing and reading token lists are inverse in both directions |
| FormatTemplate.ReadPassesFirst | server/src/agent_shell/contracts.py:84-100 | every text of the grammar passes the first pass with the same names |
| FormatTemplate.PassesAgree | server/src/agent_shell/contracts.py:84-115 | both passes cut an allowed placeholder at the same place |
| VirtualPaths.AcceptedIsCanonical | server/src/agent_shell/contracts.py:130-137 | an accepted path has one leading slash and no empty, `.` or `..` segment, and each refusal names its cause |
| VirtualPaths.NormalisationIsIdempotent | server/src/agent_shell/contracts.py:130-137 | normalising an accepted path again changes nothing |
| VirtualPaths.DirectoryNormalisationIsIdempotent | server/src/agent_shell/contracts.py:140-144 | the same for directory paths |
| VirtualPaths.AcceptedDirectory | server/src/agent_shell/contracts.py:140-144 | an accepted directory path is the print of its segments with a slash after each |
| VirtualPaths.AcceptedFile | server/src/agent_shell/contracts.py:147-153 | an accepted file path is the print of a non-empty segment list |
| VirtualPaths.DirectoryPrefix | server/src/agent_shell/contracts.py:642-648 | on accepted directory paths string prefix is segment-list prefix |
| VirtualPaths.FileBelowDirectory | server/src/agent_shell/contracts.py:753-756 | a file path starts with a directory path if and only if the directory's segments are a proper prefix of the file's |
| FilesystemBlock.ValidatePaths | server/src/agent_shell/contracts.py:618-770 | a composite block is accepted if and only if it meets the declarative condition (reserved names, routes, uniqueness, sources, clash-free claims); the two dictionaries then hold exactly the claims |
| BlockSegments.AcceptableInSegments | server/src/agent_shell/contracts.py:618-770 | a normal block is acceptable if and only if its segments are: no system name first, no nesting with or among mapped directories, sources of the right kind, virtual files called like their sources, clash-free claims |
| BlockSegments.NameIsLastSegment | server/src/agent_shell/contracts.py:748-752 | the name of a virtual file path is its last segment |
| BlockSegments.UnreservedDirectory | server/src/agent_shell/contracts.py:175-183 | a directory path is free of the reserved namespaces if and only if it is not the root and its first segment is no system name |
| BlockSegments.UnreservedFile | server/src/agent_shell/contracts.py:175-183 | a file path is free of them if and only if its first segment is no system name |
| BlockSegments.OneFileIsAccepted | server/src/agent_shell/contracts.py:735-768 | a block with one virtual file is accepted if and only if its first segment is no system name and its last one is the source's name |
| FilesystemBlock.ScanDirectories | server/src/agent_shell/contracts.py:687-734 | the directory scan rejects exactly on a link or on clashing claims, and records every claim with its origin |
| FilesystemBlock.RecordedDecides | server/src/agent_shell/contracts.py:691-734 | the dictionary tests decide whether the next claim clashes with an earlier one |
| FilesystemBlock.OneOrigin | server/src/agent_shell/contracts.py:687-768 | in an accepted block every recorded target has exactly one claim of its kind and carries that claim's origin; two claims share a target only as a file followed by a virtual directory's root |
| FilesystemBlock.DisjointTargets | server/src/agent_shell/contracts.py:687-768 | file and directory keys are disjoint if and only if no virtual directory's root names a file claimed before it |
| FilesystemBlock.OrderDecides | server/src/agent_shell/contracts.py:691-698 | exchanging two neighbouring virtual directories of an accepted block gives an accepted block if and only if the second one's root is no file of the first |
| FilesystemBlock.OrderDecidesExample | server/src/agent_shell/contracts.py:687-768 | a whole block is accepted whose recorded file and directory targets overlap, and is rejected with its two directories exchanged |
| FilesystemBlock.AtMostOneRoute | server/src/agent_shell/contracts.py:642-648 | in an accepted block every virtual path lies under at most one mapped route |
| FilesystemBlock.AtMostOneMappedAncestor | server/src/agent_shell/contracts.py:642-648 | the same in segments: at most one mapped directory is a proper ancestor of a file |
| FilesystemBlock.ExpansionsStayClear | server/src/agent_shell/contracts.py:622-685 | in an accepted block no directory or file expanded from a virtual directory touches a reserved namespace or a mapped route |
| FilesystemBlock.FilesStayClear | server/src/agent_shell/contracts.py:632-640 | no virtual file is in or at a reserved namespace or under a mapped route |
| EntityDecoder.RunIsDecoding | server/src/agent_shell/provider_http_logging.py:100-118 | for any chain of lawful decoders and any chunking, the outputs of all feeds and the finish are the composed whole-body decoding, errors included |
| EntityDecoder.OneDecoder | server/src/agent_shell/provider_http_logging.py:100-118 | a response with one coding gives, in any chunks, all output with the final flush, unless the library refuses it or it ends before its last frame |
| EntityDecoder.FirstChunkDecides | server/src/agent_shell/provider_http_logging.py:55-118 | with deflate decoders the result is the whole-body decoding by the decoders that the first chunk selects |
| EntityDecoder.DeflateChunking | server/src/agent_shell/provider_http_logging.py:62-70 | chunked and whole deflate decoding agree if and only if it is not the case that zlib takes the first chunk, rejects the body and raw deflate takes it |
| EntityDecoder.ChainChunking | server/src/agent_shell/provider_http_logging.py:55-118 | for any chain, chunked and whole decoding agree if and only if the decoders selected by the first chunk, stage by stage, are those selected by the whole body or whole decoding fails |
| EntityDecoder.EmptyFirstChunkCommits | server/src/agent_shell/provider_http_logging.py:62-70 | for every raw body that zlib rejects, an empty first chunk already makes the decoder fail |
| EntityDecoder.DecodingUndoesEncoding | server/src/agent_shell/provider_http_logging.py:80-118 | a body encoded in header order is given back by the decoder chain for any non-empty list of chunks |
| EntityDecoder.UndoesNamed | server/src/agent_shell/provider_http_logging.py:85-98 | every supported coding is decoded by the library that undoes it |
| EntityDecoder.CodingsAreRead | server/src/agent_shell/provider_http_logging.py:85 | codings written in any case and with white space around them are read as their names in order |
| EntityDecoder.OtherHeaders | server/src/agent_shell/provider_http_logging.py:82-98 | a header with codings is usable if and only if each of them is one of the four supported ones |
| EntityDecoder.PlainBodyIsKept | server/src/agent_shell/provider_http_logging.py:83-84 | a body that is already decoded or has no coding is captured as it is |
| EntityDecoder.FeedThenFinish | server/src/agent_shell/provider_http_logging.py:100-118 | feeding an input and finishing with a tail is decoding the input followed by the tail |
| EntityDecoder.BuildDecoders | server/src/agent_shell/provider_http_logging.py:81-98 | the constructor's loop gives the decoders named by the header, last coding first, none for a body that is already decoded or in the identity coding, and fails if and only if a coding is unsupported |
| EntityDecoder.EntityDecoder.Feed | server/src/agent_shell/provider_http_logging.py:100-106 | one chunk through all decoders, with every decoder's new state |
| EntityDecoder.EntityDecoder.Finish | server/src/agent_shell/provider_http_logging.py:108-118 | each decoder takes what its predecessor flushed, is flushed, and must have reached its last frame |
| ResponseCapture.Capture.Append | server/src/agent_shell/storage/provider_http_logs.py:161-188 | appending to a finished capture or appending nothing does nothing; a failing write may leave a prefix |
| ResponseCapture.Capture.Finish | server/src/agent_shell/provider_http_logging.py:152-159 | the first finish records the state, later ones change nothing |
| ResponseCapture.ResponseStream.Next | server/src/agent_shell/provider_http_logging.py:273-296 | whatever happens to the capture, an undisturbed step gives exactly what the inner stream gives; when the generator ends the capture is finished in the state that names the cause; the captured bytes stay a prefix of the true decoding |
| ResponseCapture.ResponseStream.ReadChunk | server/src/agent_shell/provider_http_logging.py:275-281 | a chunk is fed, recorded and delivered, or the cancelled step finishes the capture and delivers nothing |
| ResponseCapture.ResponseStream.Observe | server/src/agent_shell/provider_http_logging.py:275-280 | a capture not in error goes into error if and only if feeding fails or the open capture's write fails; otherwise exactly the decoded piece is appended; the captured bytes stay a prefix of the true decoding |
| ResponseCapture.ResponseStream.AtEnd | server/src/agent_shell/provider_http_logging.py:244-252 | at the end the flushed tail is appended unless decoding or the store failed, the state is `eof` unless a cancellation arrived with that write, and without a disturbance the record is complete if and only if nothing failed before and the whole body decodes |
| ResponseCapture.ResponseStream.CloseGenerator | server/src/agent_shell/provider_http_logging.py:288-290 | closing a suspended generator finishes the capture as closed by the consumer; one that has not begun or has ended finishes nothing |
| ResponseCapture.ResponseStream.Close | server/src/agent_shell/provider_http_logging.py:254-258 | closing the stream leaves the capture finished and never changes a recorded state |
| ResponseCapture.Headers | server/src/agent_shell/provider_http_logging.py:161-192 | the decoder is built from the content encoding; without one the capture is in error |
| ResponseCapture.HandleRequest | server/src/agent_shell/provider_http_logging.py:335-365 | the caller gets a stream with an open capture and the decoders of the response's content encoding, or an error after the begun capture was finished exactly once with the right state |
| ResponseCapture.Consume | server/src/agent_shell/provider_http_logging.py:261-302 | for any use of the stream: the capture ends if and only if the stream is closed, or its generator, resumed first, is dropped or gives anything but a chunk; without cancellation the consumer gets the inner chunks in order and all of them when it resumes often enough; when also every write succeeds the record is complete if and only if the body decodes |
| ResponseCapture.Exchange | server/src/agent_shell/provider_http_logging.py:331-365 | over transport and stream a begun capture is finished once if there is no stream or its use ends it, and otherwise not at all; the captured body is a prefix of the true decoding by the response's own decoders; read to its end without disturbance it is recorded as `eof`, and as complete with the whole decoding if and only if the request was recorded, the headers were written and the body decodes |
| ResponseCapture.CompleteCaptureIsTheBody | server/src/agent_shell/storage/provider_http_logs.py:239-243 | a body encoded as the header says is what the header's decoders give for every chunking, so a capture recorded as complete holds it |
| ResponseCapture.TrueDecodingOfRun | server/src/agent_shell/provider_http_logging.py:100-118 | when decoding succeeds, the reference that captured bytes are compared with is the full decoded body |
| ManagementAuth.StepKeepsSound | frontend/src/api/transport.ts:29-100 | every step of every request and of the user keeps: pending exactly while the dialog is open, a held token means no pending challenge, waiting requests wait on the pending challenge, an in-flight request with the current generation carries the current token if one is held |
| ManagementAuth.EveryRunIsSound | frontend/src/api/transport.ts:312-357 | the invariant over every interleaving |
| ManagementAuth.FromTheStart | frontend/src/api/transport.ts:29-100 | from the initial controller every interleaving is sound, and discards only failed tokens exactly when nothing is lost, in particular under the guard |
| ManagementAuth.TokenChangesRaiseGeneration | frontend/src/api/transport.ts:46-94 | no step lowers the generation, and every token change raises it |
| ManagementAuth.SameGenerationSameToken | frontend/src/api/transport.ts:51-53 | over any interleaving an unchanged generation means an unchanged token |
| ManagementAuth.WhoDiscards | frontend/src/api/transport.ts:55-63 | a held token is discarded if and only if a request with the current generation is refused or a fetch asks again as invalid; the former carried exactly that token |
| ManagementAuth.DeservedExactly | frontend/src/api/transport.ts:61-75 | a step discards a token undeservedly if and only if a fetch ends an invalid drain while a token is held |
| ManagementAuth.DiscardsDeservedExactly | frontend/src/api/transport.ts:312-357 | over every interleaving all discarded tokens are ones whose request was refused if and only if no step does that |
| ManagementAuth.CalmRunsDiscardOnlyFailedTokens | frontend/src/api/transport.ts:350-353 | when no token is submitted while a fetch discards its response, every discarded token is one whose request was refused |
| ManagementAuth.UploadsNeedNoGuard | frontend/src/api/transport.ts:501-526 | with uploads alone this needs no guard |
| ManagementAuth.SubmitDuringDrainIsLost | frontend/src/api/transport.ts:351-353 | every token submitted during such a discard is thrown away unused |
| ManagementAuth.DrainWithOpenDialogIsReached | frontend/src/api/transport.ts:312-357 | the situation is reachable with two fetches |
| ManagementAuth.AskingMeans | frontend/src/api/transport.ts:61-75 | a request that asks goes on at once with the held token unless it was just refused; otherwise it waits and the open dialog shows its reason |
| ManagementAuth.UserAnswers | frontend/src/api/transport.ts:77-94 | the user's answer settles every waiting request and closes the dialog, blank text changes nothing, and other requests are untouched |
| ManagementAuth.OthersLeaveTheDialog | frontend/src/api/transport.ts:312-357 | no other step opens, closes or relabels the dialog or touches another request |
| ManagementAuth.BlankIsTrimmedAway | frontend/src/api/transport.ts:78 | a candidate is blank if and only if trimming leaves nothing |
| ManagementAuth.NobodyIsLeftWaiting | frontend/src/api/transport.ts:77-94 | a submit hands its token to every waiting request, a cancel ends them all, and the dialog is open while anyone waits |
| ManagementAuth.ManagementAuthController.Invalidate | frontend/src/api/transport.ts:55-59 | clears the token if and only if the generation is current |
| ManagementAuth.ManagementAuthController.Challenge | frontend/src/api/transport.ts:61-75 | answers the held token or the one pending promise, and keeps the controller coherent |
| ManagementAuth.ManagementAuthController.Submit | frontend/src/api/transport.ts:77-86 | blank text changes nothing; otherwise the pending promise is resolved and the dialog closes |
| ManagementAuth.ManagementAuthController.Cancel | frontend/src/api/transport.ts:88-94 | rejects the pending promise, clears the token and closes the dialog |
| SseJsonParser.SseJsonParser.Push | frontend/src/api/transport.ts:560-572 | one push gives the events of all blocks completed so far, or the error of the first malformed one, and keeps the text after them |
| SseJsonParser.BoundaryMeans | frontend/src/api/transport.ts:563 | a boundary is one of the three alternatives of the regular expression, and its length is that of the alternative |
| SseJsonParser.NothingBeforeFirst | frontend/src/api/transport.ts:563 | the boundary found is the leftmost one: none starts before it, and without one there is none anywhere |
| SseJsonParser.ChunksDoNotMatter | frontend/src/api/transport.ts:557-573 | for every split of the stream the events equal those of one push, and an error appears exactly when one push gives it |
| SseJsonParser.BoundaryIsStable | frontend/src/api/transport.ts:563 | text that arrives later moves neither the first boundary nor its length |
| SseJsonParser.CutsRebuild | frontend/src/api/transport.ts:563-570 | blocks, boundaries and remaining text reproduce the input, and the remaining text holds no boundary |
| SseJsonParser.CutsOfGlue | frontend/src/api/transport.ts:563-570 | cutting finds again any blocks that were glued with their boundaries |
| SseJsonParser.ConsumeIsCuts | frontend/src/api/transport.ts:560-572 | the parser keeps exactly the boundary-free rest and gives the blocks' events in order |
| SseJsonParser.PrintedEventIsClean | frontend/src/api/transport.ts:528-534 | fields printed with any of the three line ends form one block whose data is the values of the data fields, written with or without a space, joined by newlines; comments and other fields add nothing |
| SseJsonParser.PrintedStreamIsRead | frontend/src/api/transport.ts:528-573 | every printed stream is read back event by event, however it is split; events without data are passed over and data that is no JSON object is an error |
| ForwardedHeader.SplitQuoted | server/src/agent_shell/security.py:333-357 | the character loop computes the quote-aware split, with its three reasons to refuse |
| ForwardedHeader.ScanGivesClosed | server/src/agent_shell/security.py:333-357 | when no quoted pair was dropped every raw part has balanced quotes, no unquoted delimiter and no pair of its own |
| ForwardedHeader.SplitGivesClosed | server/src/agent_shell/security.py:333-357 | the same for the stripped parts that the splitter returns |
| ForwardedHeader.ScanOfJoin | server/src/agent_shell/security.py:333-357 | splitting undoes joining of such parts |
| ForwardedHeader.ScanLoses | server/src/agent_shell/security.py:341-345 | joining the parts gives the text back if and only if no quoted pair was dropped; the lengths differ by the number dropped |
| ForwardedHeader.ParseForwarded | server/src/agent_shell/security.py:541-578 | the nested loops compute the specified reading of the header |
| ForwardedHeader.ReadParameters | server/src/agent_shell/security.py:557-566 | the parameter loop computes the specified map or refuses |
| ForwardedHeader.HeaderIsRead | server/src/agent_shell/security.py:541-578 | printed elements without quoted pairs, bare or quoted, with separators inside quotes and white space around, are read as what their values mean, in order |
| ForwardedReading.ConflictsAreRefused | server/src/agent_shell/security.py:541-578 | a printed header whose elements all mean something is refused if and only if two elements state schemes or hosts that differ in lower case; otherwise it is read as all addresses in order with the stated scheme and host |
| ForwardedReading.CombinedMeans | server/src/agent_shell/security.py:574-578 | the same for any list of elements with a meaning, however it was spelled |
| ForwardedReading.ParametersExactly | server/src/agent_shell/security.py:557-566 | parameters are accepted if and only if each has an equals sign and one of the four names, and no name comes twice; every name gives its stripped value |
| ForwardedReading.SplitExactly | server/src/agent_shell/security.py:333-357 | a text without quoted pairs is split if and only if its quotes pair and no part is blank |
| ForwardedReading.BeyondAsciiIsRefused | server/src/agent_shell/security.py:549-552 | a header with a character beyond ASCII is refused |
| ForwardedReading.ValueRefusals | server/src/agent_shell/security.py:360-370 | a value quoted at one end only or with an invisible character is refused, and a host with a separator of paths or users in it |
| ForwardedReading.BracketedNodeMeans | server/src/agent_shell/security.py:377-384 | a bracketed node is the address in the brackets if a port or nothing follows, and is refused otherwise |
| ForwardedReading.PlainNodeMeans | server/src/agent_shell/security.py:371-390 | obfuscated nodes are refused, and a node without a single colon is parsed as it is |
| ForwardedReading.PortNodeMeans | server/src/agent_shell/security.py:385-390 | a node with a single colon is parsed without its port if that is a number, and as it is otherwise |
| ForwardedReading.AuthorityMeans | server/src/agent_shell/security.py:393-418 | the name and port of every form of a host, and which forms are refused |
| ForwardedReading.CheckedHostMeans | server/src/agent_shell/security.py:413-418 | an empty name, white space in it and a port outside 1 to 65535 are refused; otherwise the host is in lower case |
| ForwardedReading.NumberIsRead | server/src/agent_shell/security.py:404-412 | a port printed in decimal is read back |
| ForwardedHeader.PrintedChainIsRead | server/src/agent_shell/security.py:541-578 | printing a chain with one scheme and one host and parsing the header gives back the same chain, scheme and host |
| QuotedPairs.OuterSplit | server/src/agent_shell/security.py:333-357 | whatever quoted pairs the values are spelled with, the split at commas gives the elements with the plain texts in place of the spellings |
| QuotedPairs.ElementIsSplitExactly | server/src/agent_shell/security.py:333-357 | such an element is split into its own parameters if and only if all its values survive the second reading |
| QuotedPairs.OrdinaryPairsSurvive | server/src/agent_shell/security.py:341-348 | a value without quotes and backslashes survives however it is spelled; one without semicolons and backslashes survives if and only if its quotes are even in number |
| QuotedPairs.SpelledHeaderIsRead | server/src/agent_shell/security.py:541-578 | a header of surviving values is read as its elements mean, whatever pairs it is spelled with |
| QuotedMeaning.HeaderIsReadExactly | server/src/agent_shell/security.py:541-578 | a header that has a meaning is read as it means if and only if every value survives |
| QuotedMeaning.ElementIsReadExactly | server/src/agent_shell/security.py:556-577 | the same for one element |
| QuotedMeaning.LostHostIsShorter | server/src/agent_shell/security.py:556-577 | an element whose host does not survive is refused or read with a shorter host |
| QuotedMeaning.LostAddressIsOther | server/src/agent_shell/security.py:556-573 | an element whose address does not survive is refused or read with another address |
| QuotedMeaning.OddQuotesAreRefused | server/src/agent_shell/security.py:353-354 | a header is refused when the quotes of one of its elements do not pair after the outer split |
| QuotedMeaning.QuotedPairBreaksAHeader | server/src/agent_shell/security.py:541-578 | for every accepted address a correctly spelled header with one quote in its host has a meaning and is refused |
| ForwardedHeader.AddressIsRead | server/src/agent_shell/security.py:360-390 | an address with or without brackets, port and quotes is read as that address |
| ForwardedHeader.HostIsRead | server/src/agent_shell/security.py:393-418 | a host, also an IPv6 one in brackets, with or without port and quotes is read in lower case with its port number |
| ForwardedHeader.SchemeIsRead | server/src/agent_shell/security.py:580-585 | a scheme in any case, bare or quoted, is read in lower case |
| ForwardedHeader.ClientFromChain | server/src/agent_shell/security.py:612-621 | the loop over the reversed chain computes the specified client |
| ForwardedHeader.RightmostMeans | server/src/agent_shell/security.py:612-626 | the client is the untrusted address behind which all are trusted; there is none exactly when all are trusted |
| ForwardedHeader.PrependedAddressesAreIgnored | server/src/agent_shell/security.py:612-621 | addresses put in front change the client only if the whole chain behind them is trusted |
| DependencyClosure.RuntimePackages | packaging/development/generate_third_party_notices.py:72-92 | the worklist ends with exactly the packages reachable over enabled markers, and fails if and only if one of them is not locked |
| DependencyClosure.ResolveNodePackage | packaging/development/generate_third_party_notices.py:101-115 | the loop computes the specified search |
| DependencyClosure.SearchGoesOutwards | packaging/development/generate_third_party_notices.py:101-115 | the search looks into the importer's own `node_modules` and then goes on from the directory that its last package is in |
| DependencyClosure.SearchEndsAtTheRoot | packaging/development/generate_third_party_notices.py:101-115 | from a path on which no package lies it looks into its own `node_modules` and then into that of the root |
| DependencyClosure.ResolutionIsDeepestExactly | packaging/development/generate_third_party_notices.py:101-115 | the search answers the candidate of the deepest enclosing directory that has one, or that none has, for all packages and names if and only if the importing path has no doubled `node_modules` |
| DependencyClosure.DoubledMarkerHidesADirectory | packaging/development/generate_third_party_notices.py:107-111 | for every path with a doubled `node_modules` and every name the candidate below the last one is locked but missed |
| NodeClosure.FrontendClosure.Visit | packaging/development/generate_third_party_notices.py:123-134 | the object's state and outcome are those of the specified visit; it adds only reachable packages, succeeds when everything reached over required dependencies resolves, and then follows all dependencies of every such package it adds |
| NodeClosure.VisitedCloses | packaging/development/generate_third_party_notices.py:123-134 | whatever fails on the way, all dependencies of every added package with resolvable requirements are visited |
| NodeClosure.FrontendPackages | packaging/development/generate_third_party_notices.py:118-138 | the answer is the specified collection: it fails only when a requirement is missing along required dependencies, holds everything reachable through packages whose requirements resolve, and nothing unreachable; it is exactly what is reachable when every reachable requirement resolves |
| NodeClosure.CollectedMeans | packaging/development/generate_third_party_notices.py:118-138 | the guarantees of the collection for every lock file, swallowed failures included |
| NodeClosure.CollectedExactly | packaging/development/generate_third_party_notices.py:118-138 | when all reachable requirements resolve, exactly the reachable packages are collected |
| NodeClosure.FailsExactly | packaging/development/generate_third_party_notices.py:118-138 | without optional dependencies the collection fails if and only if some reachable requirement is not locked |
| NodeClosure.OrderDecidesFailure | packaging/development/generate_third_party_notices.py:123-138 | at one lock file the root names in one order give all three packages and in the other order a failure, because a swallowed failure leaves its package visited |
| EventFeed.EventFeedService.ListEvents | server/src/agent_shell/event_feed.py:203-264 | a page of the sorted matching items with the total and the number of pages |
| EventFeed.EventFeedService.DeleteMatching | server/src/agent_shell/event_feed.py:284-339 | deletes exactly the matching records except active exchanges; deleted plus skipped is the total the listing gives for the same filter |
| EventFeed.EventFeedService.DeleteExchanges | server/src/agent_shell/storage/provider_http_logs.py:324-333 | deleting by identifier removes exactly the matching ended exchanges, since identifiers are distinct |
| EventFeed.ItemsCountMatches | server/src/agent_shell/event_feed.py:172-282 | the listing's filter on items and the deletion's filter on records select equally many |
| EventFeed.AfterDeletion | server/src/agent_shell/event_feed.py:284-339 | after a deletion the same filter lists exactly the active exchanges that were skipped |
| EventFeed.PublicItems | server/src/agent_shell/event_feed.py:172-201 | the loop with its early exits selects the items inside the window, the levels and the search text |
| EventFeed.WhatIsListed | server/src/agent_shell/event_feed.py:203-253 | exactly the records of the asked sources, window, levels and text are listed, as items with their own fields |
| EventFeed.ListingOrder | server/src/agent_shell/event_feed.py:107-115 | newest first; at one instant provider exchanges, then system events, then runtime diagnostics; within a source identifiers descending |
| EventFeed.SortedIsStable | server/src/agent_shell/event_feed.py:255 | items with one key keep their order |
| EventFeed.PagesPartition | server/src/agent_shell/event_feed.py:255-264 | pages one to the last one together are the list, each item once, and the last of several pages is not empty |
| EventFeed.ListingIsComplete | server/src/agent_shell/event_feed.py:255-264 | all pages together are the matching items, each exactly once, in the order of the listing |
| EventFeed.SortedDescends | server/src/agent_shell/event_feed.py:107-115 | the listing descends in the compared keys |
| EventFeed.SystemEventLog.PublicRecords | server/src/agent_shell/security_events.py:173-188 | the records of the lines that parse to a known event, in order |
| EventFeed.SystemEventLog.DeletePublicRecords | server/src/agent_shell/security_events.py:190-213 | the rewritten log is the old one without the matching lines, and the count is their number |
| EventFeed.RewriteKeepsTheRest | server/src/agent_shell/security_events.py:190-213 | the rewrite removes exactly the matching records, keeps the others in order and every unparseable line in place |
| DataTable.DataTable.Begin | frontend/src/composables/useDataTable.ts:145-150 | the new request becomes the newest one and carries the current query and page |
| DataTable.DataTable.Settle | frontend/src/composables/useDataTable.ts:150-163 | only the newest request's reply is applied; a late one changes nothing; the page drops into the table and loads again exactly when it lay outside |
| DataTable.DataTable.AwaitSettled | frontend/src/composables/useDataTable.ts:144-164 | the recursive reload ends because the page strictly drops, counts its requests, and then shows the reply to the current request |
| DataTable.DataTable.Play | frontend/src/composables/useDataTable.ts:122-224 | over every interleaving: loading if and only if the newest request is pending, the page inside the table, every applied reply was that of the newest request at its time, the rows are those of the last applied one, and settled rows belong to the current request |
| DataTable.DataTable.Apply | frontend/src/composables/useDataTable.ts:170-182 | an accepted query starts at the first page with a new newest request |
| DataTable.DataTable.ChangePage | frontend/src/composables/useDataTable.ts:206-212 | a page outside the table or the current page changes nothing; any other one is loaded |
| DataTable.DataTable.ChangePageSize | frontend/src/composables/useDataTable.ts:214-219 | a new positive size starts at the first page; anything else changes nothing |
| DataTable.DataTable.ReloadFirst | frontend/src/composables/useDataTable.ts:221-224 | the first page of the current query is requested anew, and nothing shown changes before its reply |
| ConfigurationValidation.ConfigurationValidation.Play | frontend/src/composables/useConfigurationValidation.ts:58-114 | over every interleaving before disposal the status is `validating` if and only if a timer or run with the current number is under way |
| ConfigurationValidation.ConfigurationValidation.Ends | frontend/src/composables/useConfigurationValidation.ts:88-98 | an outdated run changes nothing; the current one sets its result |
| ConfigurationValidation.ConfigurationValidation.Schedule | frontend/src/composables/useConfigurationValidation.ts:101-108 | outdates everything before and leaves one timer with the current number |
| ConfigurationValidation.ConfigurationValidation.ValidateNow | frontend/src/composables/useConfigurationValidation.ts:110-114 | outdates everything before and starts one run, or reports that there is nothing to validate |
| ConfigurationValidation.ConfigurationValidation.ApplyReport | frontend/src/composables/useConfigurationValidation.ts:67-71 | a report from elsewhere outdates everything and sets the state |
| ConfigurationValidation.ConfigurationValidation.LateReplies | frontend/src/composables/useConfigurationValidation.ts:88-98 | once nothing current is under way no late reply changes the state, before or after disposal |
| SnapshotWriter.SnapshotWriter.Sync | server/src/agent_shell/langgraph_dev_persistence.py:48-66 | the digest comparison skips exactly when the content is the remembered one; a failed write leaves the remembered digest alone |
| SnapshotWriter.ReturnedSyncIsOnDisk | server/src/agent_shell/langgraph_dev_persistence.py:48-66 | over every sequence of store changes, syncs and failed writes without `chmod` errors, a sync that returns leaves its dump on disk and a failed one is written by the next |
| SnapshotWriter.SkippingRefinesAlwaysWriting | server/src/agent_shell/langgraph_dev_persistence.py:57-66 | the file is always that of a writer that never skips |
| SnapshotWriter.StateFromHistory | server/src/agent_shell/langgraph_dev_persistence.py:48-66 | the remembered content is that of the last complete write, and the disk is out of step with it exactly after a history that displaced it |
| SnapshotWriter.WhenSkippingMisleads | server/src/agent_shell/langgraph_dev_persistence.py:57-66 | over every history from an in-step disk, a returning sync leaves another content on disk if and only if it may skip and the history displaced its dump: a `chmod` failed for another content after its last complete write, and nothing else was written completely since |
| SnapshotWriter.ModeErrorIsMisleading | server/src/agent_shell/langgraph_dev_persistence.py:63-64 | one `chmod` error after a successful write makes the return to the old content skipped |
| SnapshotWriter.FlushRound | server/src/agent_shell/langgraph_dev_persistence.py:90-108 | a round syncs every live writable store whatever happens to the others, leaves read-only stores alone, and drops the dead ones |

## Left out

- Symbolic links, reparse points, case folding, Windows name rules beyond the reserved characters and device names, and file permissions: the tree is link-free and case-sensitive, and its data root exists.
- Disk errors of commands other than the upload's own writes; UTF-8 encoding of texts, time stamps, sizes and metadata in answers.
- Repository manifests: whether a configuration repository can be loaded is a fixed set of names.
- FileManager.FileManagerService.Commit: the three ways of publishing (replace, Windows rename, POSIX link) are one atomic step, so a target that appears between the test and the publication is not modelled.
- UploadProtocol.ReadersSeeWholeFiles: speaks of runs in which no command displaces an upload, which by StagedThroughout are the runs that keep the temporaries exact; at most one cancellation for each request, and the names of temporaries are assumed distinct.
- UploadProtocol.NoTemporaryLeft: speaks of the same runs.
- ArchiveWalk.ArchiveEntries: the generator's results are a sequence, the directory listing order is an arbitrary duplicate-free listing, and the tree does not change during the walk.
- FormatTemplate.Validate: assumes that allowed names contain no brace, colon, exclamation mark or opening bracket, as all callers' names do.
- FilesystemBlock.ValidatePaths: the recursive directory listing and the answers of the disk are part of the block; error texts carry no paths.
- A claim that accepted virtual files form a tree: the code does not reject a file that is an ancestor of another target or that names a mapped route.
- EntityDecoder.EntityDecoder.Finish: the decoders' states after the final flush are not recorded, since they are not used again.
- EntityDecoder.EntityDecoder.Feed: the decoders' states after an exception are left open, since a capture in error is not fed again.
- ResponseCapture.ResponseStream.Next: the synchronous and the asynchronous stream are one class, the former without cancellations; exceptions that are neither errors of the library or the store nor cancellations are not modelled.
- ResponseCapture.HandleRequest: the request body's content, byte counts, retention and metadata other than the state are not modelled.
- `managementAuth.clear()`, exported as `managementApi.clearManagementToken` (frontend/src/api/index.ts:105): it has no caller in the repository and is no step.
- ManagementAuth.StepKeepsSound: assumes that promise continuations have run before the user submits again; network errors are aborts.
- SseJsonParser.ChunksDoNotMatter: after an error nothing is said about the kept text, since the stream is opened again; the boundaries are those of the code, which knows no mixed line ends within a boundary.
- QuotedMeaning.HeaderIsReadExactly: an address that does not survive is misread for sure only if the address parser distinguishes IPv6 scopes, as `ipaddress` does; this is assumed of the parser unless all addresses survive.
- ForwardedHeader.HeaderIsRead: values with quoted pairs are the subject of QuotedPairs and QuotedMeaning; the X-Forwarded headers, header decoding and the rewriting of the request scope are left out; white space is what `str.strip` removes.
- NodeClosure.FrontendPackages: with swallowed failures the packages below one whose requirement is missing depend on the order and are only bounded from above; licences, versions and the rendering of the notices.
- EventFeed.EventFeedService.ListEvents: time stamps are instants that parse, case folding happened before, and inline contents, downloads and the highlight flag are left out; the runtime store is a list.
- EventFeed.SystemEventLog.DeletePublicRecords: the log is a list of lines; encoding, rotation and line separators other than the line feed are left out.
- DataTable.DataTable.Play: remote mode only; a reset is an accepted query with the defaults; filter normalisation, query validation and drafts are left out, and a page target is an integer.
- ConfigurationValidation.ConfigurationValidation.Play: the debounce delay is left out, and the settings and the watched source only decide when the form changes.
- SnapshotWriter.FlushRound: only adapted stores; the flush thread's timing and the replacement of the store's methods are left out.
- Routing, HTTP clients, rendering, translation tables, agent graphs, capability manifests, token comparison and confirmation dialogs: plumbing, or only easy members.

# Kennel: verified model of artifact continuity, the browser broker, the change feed, attachments and the protocol generator

This project models five parts of Kennel's backend in Dafny and proves what they are for.

**Artifact continuity** (`Names`, `FileTree`, `Resolution`, `Receipts`, `GitStatus`, `Capture`, `Retention`, `Bundle`,
`Publication`, `PublicationRuns`, `Compose`, `Materialize`, `Overlay`, `Continuity`, `Provisioning`, `ExportVerify`,
`Export`). A file system is a map from segment lists to files, directories and links, resolved the way the kernel
resolves paths, links included. `Disk` mutates it one system call at a time and keeps the ghost history of every state it
passed through; unless it is `reliable`, any call may fail or be cut short, which stands for I/O errors, cancellation and
crashes. On top of it, retaining a workspace, publishing the result, composing several results, writing them onto a
successor's checkout and delivering them to a destination are methods that do what the source does, step by step.

**The browser command broker** (`CommandBroker`, `BrokerRuns`, `BrokerSafety`). The critical sections are methods of a
class; an interleaved step relation over the same state covers every `Execute` call, every connection's server, the write
gate and the result channels.

**The change feed** (`ChangeFeed`, `FeedRuns`). Broadcaster and poller are classes; a transition system interleaves
appends, deletions of a session's rows, reads, single broadcasts, subscriptions and seeks.

**Attachments** (`AttachmentNames`, `Attachments`, `AttachmentHistory`). The canonical store is an object with fallible
operations over it and over worktrees that agents may change at will.

**The protocol generator** (`Schemas`, `GoTypes`, `Widening`, `Declarations`, `ProtocolTypes`, `Renderer`, `Decoding`,
`TaggedUnions`, `Soundness`, `References`, `Generated`, `Presence`). JSON Schema draft-07 as far as the generator reads it, its mapping
to Go types, and the renderer with its worklist; what is produced is the list of declarations, not their text. `Decoding`
gives schemas and Go types a meaning of their own, the JSON values they admit and decode, and proves the mapping sound
against it; `References` follows definitions that are references and nothing else; `Generated` closes the recursion
through named types over the renderer's whole output; `Presence` says what a decoded struct can tell of a missing member. A member of an object is decoded into the field of its name, or else
into the first field that differs from it in case only; integers are numbers written without fraction or exponent.

**Text framing** (`Framing`). The two replacements that keep page text from forging a trust marker.

Readings used throughout: a SHA-256 digest stands for the bytes it was computed from, a manifest digest for the multiset
of its entries (the code sorts and length-prefixes them), the export manifest's JSON encoding is lossless, and UUIDs and
random suffixes are fresh. Paths given by a caller are absolute and already cleaned. Strings are sequences of characters.
Whatever the code leaves to chance or to the outside (cancellation, I/O errors, scheduling, what git and the schema
provider answer, map iteration order) is a parameter or a nondeterministic choice.

Where code and comments differ, the code is modelled:

- `Compose` says a repeated path must be byte and mode identical; it also requires the same change kind.
- `confinedPhysicalPath` says the writer replaces a final symlink; `writeMaterialized` refuses it.
- `SeekToHead` sets the cursor unconditionally. With a source that answers a smaller number it repeats events:
  `FeedRuns.BackwardSeekRepeats` has the exact condition and `FeedRuns.FallenHeadRepeats` a run. The real table does answer
  smaller numbers, because `DeleteSession` removes rows (`FeedRuns.DeletedHeadSeeksBack`); nothing is repeated all the same,
  because the column is AUTOINCREMENT (`FeedRuns.LogBroadcastsAscend`).
- The poller promises every new event; a row that is deleted between two polls is never broadcast
  (`FeedRuns.DeliveryIsExact`).
- A definition that only wraps an inline object is rendered as a type defined as itself, and the object is never declared:
  `ProtocolTypes.AliasOfObjectMentionsItself` and `ProtocolTypes.WrappedObjectIsSelfAlias`.
- `goType` renders every inline enum as a string and a list of types as its first one;
  `Decoding.GoTypeIsSoundExactly` says for which schemas that is right.
- `taggedUnion` takes any enum of one value for a discriminator, and its type is a string type:
  `TaggedUnions.TagDecodesExactly` has the condition and `TaggedUnions.NumberedTagFails` a union.
- A flattened union gives a member one type for all arms, while an arm admits members it does not declare:
  `TaggedUnions.UnionDecodesExactly` says for which unions every object decodes, `TaggedUnions.StrayMemberFails` has one
  for which an object does not, and `TaggedUnions.OwnMembersDecode` covers the objects of one arm.
- `renderDef` says that callers cannot be trapped by a name that looks decodable and is not, and aliases raw JSON for that.
  A definition that only refers to such an alias is a defined type all the same: `References.RawReferenceFails` has two
  definitions, `References.ReferenceDecodesExactly` the condition on one definition, and
  `Generated.GeneratedTypesDecode` the condition on all of them.
- The decoder falls back to field names of another case, which no schema knows of: `Decoding.CaseVariantFails` has an
  object, `Decoding.StructDecodesExactly` the condition.
- `jsonKind` follows single allOf references without remembering where it has been:
  `Widening.SettlesUnlessCircular` says exactly when it returns, `Widening.SelfReferenceNeverSettles` when not.

## Model

| member | source | states |
|---|---|---|
| `Names.ValidNameIsConfined` | backend/internal/domain/attempt_receipt.go:143-158 | every name that passes validation, although only a trimmed and slash-normalized copy is checked, has no empty, dot or dot-dot segment itself |
| `Names.OrdinaryNamesExactly` | backend/internal/domain/attempt_receipt.go:144-168 | of names without outer spaces, backslashes and NUL exactly those are accepted that are not empty, have no empty, dot or dot-dot segment and no colon in second place |
| `Names.IncreasingUnique` | backend/internal/artifactstore/handoff.go:98-102 | a strictly sorted key list is determined by its set of keys |
| `Names.SortedKeys` | backend/internal/artifactstore/store.go:294-298 | collecting map keys in any order and sorting gives the strictly increasing list of exactly those keys |
| `Names.SplitInjective` | backend/internal/artifactstore/handoff.go:253 | splitting loses nothing: names with the same segments are the same name |
| `FileTree.ResolveClear` | backend/internal/artifactstore/store.go:367-384 | where nothing on the way is a link, the kernel's lookup reaches exactly the entry the name spells |
| `FileTree.LstatBelowFile` | backend/internal/artifactstore/handoff.go:256-262 | nothing is reachable below a regular file |
| `FileTree.Disk.WriteFile` | backend/internal/artifactstore/store.go:587-605 | the write creates or replaces one file and nothing else; interrupted, it leaves that file with some other content |
| `FileTree.Disk.MakeDirs` | backend/internal/artifactstore/handoff.go:186-188 | directories are made from the top; a state in which it stops differs only by leading directories of the path |
| `FileTree.Disk.RemoveTree` | backend/internal/artifactstore/export.go:159-164 | an interrupted removal has removed only entries under the given path |
| `FileTree.Disk.Rename` | backend/internal/artifactstore/store.go:547-552 | one atomic step: what lay under the old path lies under the new one, the rest is unchanged |
| `FileTree.MovedAt` | backend/internal/artifactstore/store.go:547-552 | where every entry of the tree is after a rename |
| `Resolution.FoundStaysFound` | backend/internal/artifactstore/export.go:151-158 | what a path leads to, links followed, it still leads to after additions elsewhere |
| `Resolution.NothingBelowNewDir` | backend/internal/artifactstore/export.go:152-154 | nothing is found below a directory that was just made |
| `Resolution.ThroughDir` | backend/internal/artifactstore/export.go:151-155 | past a resolved directory the lookup continues from that directory, however many links led there |
| `Receipts.VersionFixesFiles` | backend/internal/domain/attempt_receipt.go:264-300 | two manifests with one version list the same changes |
| `GitStatus.ParseNameStatus` | backend/internal/artifactstore/store.go:449-473 | the index loop computes the recursive reading of the NUL-separated parts |
| `GitStatus.ParsePorcelain` | backend/internal/artifactstore/store.go:475-502 | the index loop computes the recursive reading of the NUL-separated entries |
| `GitStatus.ParseInvertsDiff` | backend/internal/artifactstore/store.go:449-473 | for every list of well-formed records, printing and parsing yields the fold of the records into the map; the second path of a rename or copy is never a record of its own |
| `GitStatus.DiffSays` | backend/internal/artifactstore/store.go:449-473 | whatever was listed before, a path is deleted, added or modified after the parse as the last record that names it says: by the D or A its status begins with, modified otherwise and at either end of a move; a path no record names is as it was |
| `GitStatus.ParseInvertsStatus` | backend/internal/artifactstore/store.go:475-502 | the same for status entries; spaces at either end of a name survive |
| `GitStatus.StatusSays` | backend/internal/artifactstore/store.go:475-502 | the same by the last status entry that names the path: untracked for two question marks, else deleted for a D in either column, else added for an A, else modified, and modified for the old path of a rename or copy |
| `Capture.VerdictIsTheWorst` | backend/internal/artifactstore/store.go:215-238 | the verdict is the most severe degradation, and one that occurred |
| `Capture.SecretNames` | backend/internal/artifactstore/store.go:434-438 | a path is secret-like exactly when what follows its last slash, in lower case, is .env, begins with .env., ends with .pem or .key, or contains credentials or secret |
| `Capture.VerdictIgnoresOrder` | backend/internal/artifactstore/store.go:215-224 | the verdict depends only on which degradations occurred, not on their order |
| `Capture.RetainedRepresentsAll` | backend/internal/artifactstore/store.go:294-364 | a retained verdict means every path was represented |
| `Capture.CaptureState.Degrade` | backend/internal/artifactstore/store.go:219-224 | the verdict becomes the more severe of the two, so it never recovers |
| `Capture.CaptureOne` | backend/internal/artifactstore/store.go:299-362 | one path: the recorded entry is what the workspace holds there within what is left of the byte bound, the total grows by its size and stays within the bound |
| `Capture.Collect` | backend/internal/artifactstore/store.go:240-365 | every listed path appears exactly once, in order; retained bytes stay within the bound and equal the sum of recorded sizes; the verdict is the worst of all |
| `Retention.RetainedIsWhole` | backend/internal/artifactstore/store.go:133-140 | a retained verdict after the file-count cut means nothing was cut, declined or left out |
| `Retention.CaptureIsPublishable` | backend/internal/artifactstore/store.go:294-364 | a capture lists distinct valid paths and every retained one has a digest and a mode |
| `Retention.Retain` | backend/internal/artifactstore/store.go:113-170 | the receipt carries each identity of its input and observation in its own field and the digest of its entries; it lists the capture, cut to the bound, each entry recording what lies at its path; it is retained, incomplete or unsupported exactly by what happened, a bound outranking the rest; a complete one is published so that every file reads back with the bytes and permissions of the workspace; no published directory changes |
| `Retention.VerdictJudges` | backend/internal/artifactstore/store.go:215-238 | the verdict is retained exactly if nothing was cut or left out, incomplete exactly if a bound was hit, unsupported exactly if something else was left out |
| `Bundle.AllWritten` | backend/internal/artifactstore/store.go:504-531 | when every write went through, every file is there as written |
| `Bundle.StagedIsExact` | backend/internal/artifactstore/store.go:504-532 | a fresh stage filled by the writes holds exactly the listed files and their directories |
| `Bundle.ExactUnique` | backend/internal/artifactstore/store.go:504-532 | an exact tree is determined by the set of files it holds, not by the order they were written in |
| `Bundle.PutFile` | backend/internal/artifactstore/store.go:515-530 | on success the file is written in place; wherever it stops, only that file and new directories towards it differ |
| `Bundle.WriteOver` | backend/internal/artifactstore/export.go:180-182 | writing over an existing delivery path replaces exactly that file |
| `Publication.Store.PublishFiles` | backend/internal/artifactstore/store.go:504-533 | the stage becomes exactly the live entries of the manifest |
| `Publication.Store.PublishDirectory` | backend/internal/artifactstore/store.go:535-554 | an existing version directory is verified and kept, a missing one appears whole, no other changes |
| `Publication.Store.Publish` | backend/internal/artifactstore/store.go:154-169 | the store either keeps what it had or gains this version complete, and then reads back intact |
| `Publication.ReadBlob` | backend/internal/artifactstore/store.go:661-680 | a blob is returned only if it is a regular file with the recorded digest and mode |
| `Publication.HeldReadsBack` | backend/internal/artifactstore/store.go:651-681 | a file that is physically there, reached through real directories, reads back as its manifest entry |
| `Publication.ExactReadsBack` | backend/internal/artifactstore/store.go:651-681 | from an exact version directory every live entry reads back as recorded |
| `PublicationRuns.VersionFixesTree` | backend/internal/artifactstore/store.go:504-554 | one version stands for one tree, in whatever order its entries were staged |
| `PublicationRuns.StepPublished` | backend/internal/artifactstore/store.go:535-554 | one step of any worker leaves a published directory as it is or makes a missing one appear complete |
| `PublicationRuns.PublishedIsExact` | backend/internal/artifactstore/store.go:154-169 | in every run of concurrent retentions, failures, races and crashes each version directory is absent or exactly its manifest's bytes and modes |
| `PublicationRuns.PublishedIsForever` | backend/internal/artifactstore/store.go:535-554 | a published directory never changes in any continuation of any run |
| `Compose.AddFile` | backend/internal/artifactstore/handoff.go:80-96 | one file is merged unless its path already has a different result |
| `Compose.AddReceipt` | backend/internal/artifactstore/handoff.go:80-96 | the inner loop merges exactly the entries of one receipt or reports the conflict |
| `Compose.AddPredecessor` | backend/internal/artifactstore/handoff.go:61-97 | one receipt is accepted exactly when it can join the ones before it |
| `Compose.Merge` | backend/internal/artifactstore/handoff.go:57-97 | the outer loop succeeds exactly when all receipts can be joined, and then holds the union of their entries |
| `Compose.Compose` | backend/internal/artifactstore/handoff.go:49-114 | succeeds if and only if the receipts are non-empty, valid, complete, readable, of distinct Attempts, of one base and pairwise agreeing (on a reliable disk); names each receipt by its version in order and hands over exactly what they list, path, kind, digest, bytes and mode, strictly sorted; two different changes to one path are refused |
| `Compose.CompositionJoins` | backend/internal/artifactstore/handoff.go:49-114 | the handoff has one version a receipt at its place, their common base, and for every listed file one entry with its path, kind, digest, bytes and recorded mode, and no other entries |
| `Compose.JoinedDoNotConflict` | backend/internal/artifactstore/handoff.go:89-92 | what can be handed over together says nothing different of one path |
| `Compose.FilesDetermined` | backend/internal/artifactstore/handoff.go:98-112 | a sorted handoff is determined by the set of its entries |
| `Compose.ComposablePermutes` | backend/internal/artifactstore/handoff.go:49-97 | a permutation of joinable receipts is joinable |
| `Compose.OrderIndependent` | backend/internal/artifactstore/handoff.go:49-114 | permuting the receipts changes neither success nor the handed-over files and base |
| `Compose.ComposedIsFaithful` | backend/internal/artifactstore/handoff.go:80-95 | every handed-over file carries the bytes its digest stands for and comes from one of the receipts |
| `Materialize.PhysicalDirectory` | backend/internal/artifactstore/store.go:367-384 | the result is the physical directory the path leads to, if there is one |
| `Materialize.ConfinedPhysicalPath` | backend/internal/artifactstore/handoff.go:245-283 | accepts exactly the valid names with only directories on the way, or nothing, and a final entry that may be anything; the rest is refused |
| `Materialize.RemoveMaterialized` | backend/internal/artifactstore/handoff.go:171-183 | removes exactly one regular file, accepts a missing one, refuses anything else |
| `Materialize.WriteMaterialized` | backend/internal/artifactstore/handoff.go:185-203 | replaces exactly one regular file or creates it with its missing directories; refuses anything else |
| `Materialize.VerifyMaterialized` | backend/internal/artifactstore/handoff.go:208-237 | succeeds exactly when every entry is absent, or a regular file with the listed bytes and mode, as listed |
| `Materialize.ApplyAllFrame` | backend/internal/artifactstore/handoff.go:144-161 | applying a handoff touches only listed paths and makes directories towards them |
| `Materialize.Write` | backend/internal/artifactstore/handoff.go:140-163 | applies and checks all entries; every intermediate state differs only by files at listed paths and new directories |
| `Materialize.Materialize` | backend/internal/artifactstore/handoff.go:128-163 | refuses a git base exactly if one of the two revisions is blank or they differ; on success the tree is the overlay of the handoff and a look at every listed path shows nothing or a regular file with the listed bytes and mode; wherever it stops every state on the way is a proper tree in which only files at listed paths and new ancestor directories differ; a refusal before writing changes nothing |
| `Overlay.OverlaysTheBase` | backend/internal/artifactstore/handoff.go:116-163 | after success listed paths are absent or hold the listed bytes and mode and every other file, link and directory is unchanged |
| `Overlay.Custody` | backend/internal/artifactstore/handoff.go:239-283 | in every state a run of Materialize passes through, whatever links the checkout contains: nothing outside the physical root differs, every directory and link is as it was, and what differs lies below real directories only |
| `Overlay.OnlyFilesAreDisplaced` | backend/internal/artifactstore/handoff.go:165-203 | directories and links of the base survive: only regular files are removed or replaced |
| `Overlay.RerunChangesNothing` | backend/internal/artifactstore/handoff.go:128-163 | after a success, materializing again succeeds and changes nothing |
| `Overlay.SucceedsExactlyWhenReady` | backend/internal/artifactstore/handoff.go:128-237 | for paths none of which lies below another, success is predicted from the checkout: if and only if every listed path is reachable and holds nothing but a regular file |
| `Continuity.HandOverReproducesTheWork` | backend/internal/artifactstore/handoff.go:116-163 | if the receipt is complete and the writing succeeded, the successor's regular files equal the workspace's at every path, deletions included |
| `Continuity.ListedIsReproduced` | backend/internal/artifactstore/store.go:294-364 | a listed path holds in the successor what it holds in the workspace |
| `Continuity.UnlistedIsKept` | backend/internal/artifactstore/handoff.go:119-124 | where nothing is listed, base, workspace and successor agree |
| `Continuity.KeptIsInside` | backend/internal/artifactstore/store.go:310-320 | a retained file was reached through real directories: no link led to it |
| `Continuity.HandOver` | backend/internal/artifactstore/handoff.go:49-163 | the three operations run in turn establish that result |
| `Provisioning.ProvisionAttemptInputs` | backend/internal/daemon/attempt_wiring.go:131-179 | success means the admitted, frozen versions were composed, each input's at its place, and written onto the workspace; an input that is missing, of another version or work unit, or not frozen refuses and changes nothing |
| `Provisioning.AdmittedReceipts` | backend/internal/daemon/attempt_wiring.go:147-170 | the receipts of the inputs in their order, exactly if none is missing, of another version or work unit, or not frozen |
| `Provisioning.RunsAreExact` | backend/internal/artifactstore/store.go:154-169 | every store reached by any run of retentions and crashes is exact |
| `Provisioning.ReadsBackItsManifest` | backend/internal/artifactstore/store.go:651-681 | from an exact store a usable receipt reads back as its manifest says, whoever published it |
| `Provisioning.SameVersionsSameTree` | backend/internal/daemon/attempt_wiring.go:118-126 | the same admitted versions on the same base give the same tree before and after anything that happened to store and ledger, or refuse |
| `Provisioning.RetainAttempt` | backend/internal/daemon/attempt_wiring.go:65-110 | an existing complete receipt is only checked: accepted only if every live blob reads back, and always then if the store is reliable; otherwise the workspace is retained and its receipt, which names this very work, saved |
| `ExportVerify.CheckFileSet` | backend/internal/artifactstore/export_verify.go:297-319 | the map-building loop decides equal length, lookup of every retained path, equal digest and change kind |
| `ExportVerify.SameFileSetIsBijection` | backend/internal/artifactstore/export_verify.go:297-319 | with distinct retained paths, passing means the manifest lists each retained file exactly once with its digest and kind and nothing else |
| `ExportVerify.OwnFileSet` | backend/internal/artifactstore/export_verify.go:297-319 | a manifest that repeats the retained list passes if and only if no two retained entries for one path disagree |
| `ExportVerify.DistinctIsCoherent` | backend/internal/storage/sqlite/migrations/0119_attempt_receipts_and_success.sql:99 | a list without repeated paths, which is all the receipts table holds, does not contradict itself |
| `ExportVerify.Pigeonhole` | backend/internal/artifactstore/export_verify.go:298-309 | a repeat-free list covered by another of the same length leaves that one repeat-free too |
| `ExportVerify.ReadDelivered` | backend/internal/artifactstore/export_verify.go:229-264 | the walk returns what its recursive reading says, refusing links and non-files on the way |
| `ExportVerify.ReadReaches` | backend/internal/artifactstore/export_verify.go:211-264 | a body is returned exactly when the file is physically there, through real directories only, and can be read; the reading fails exactly when an I/O error is the first thing met on the way |
| `ExportVerify.VerifyFiles` | backend/internal/artifactstore/export_verify.go:154-193 | the loop answers verified exactly when every live retained file is read with its digest, else the first failure's verdict |
| `ExportVerify.VerifyExport` | backend/internal/artifactstore/export_verify.go:95-200 | only reads, and each of its four answers is exact: absent if and only if the receipt is valid and nothing is at the destination; verified if and only if a legible manifest names this delivery and every retained file stands; unreadable if and only if the receipt is invalid, the destination or manifest cannot be read, or the first file not to stand is concealed by an I/O error; mismatch if and only if something else is there, no manifest, another delivery's, or the first file not to stand is missing or different |
| `ExportVerify.ContentVerdictMeans` | backend/internal/artifactstore/export_verify.go:124-193 | the exact conditions of verified, unreadable and mismatch for a destination directory, in the order of the checks |
| `ExportVerify.SameIsNamed` | backend/internal/artifactstore/export_verify.go:268-319 | the identity and file-set checks together find nothing exactly when the seven identity fields agree, the lists are equally long, and the last entry for each retained path has its digest and change kind |
| `ExportVerify.VerifiedIsExact` | backend/internal/artifactstore/export_verify.go:95-200 | where everything can be looked at, verified is answered if and only if the destination physically holds a manifest of this delivery that matches the retained set, and every live file under its own name with its digest |
| `ExportVerify.ReservedNameHoldsTheManifest` | backend/internal/artifactstore/export.go:128-138 | verified with a live artifact under the reserved manifest name would need that artifact's bytes to be the manifest itself: why the name is refused |
| `Export.StageFile` | backend/internal/artifactstore/export.go:165-193 | one retained file is read, staged and re-read; nothing outside the stage changes in any intermediate state; on a reliable disk and store it fails only where the blob or the place is missing |
| `Export.StageFiles` | backend/internal/artifactstore/export.go:165-193 | the loop stages every live retained file, earlier ones kept; on a reliable disk and store it succeeds if all blobs can be read and written one after the other |
| `Export.BareTakesAll` | backend/internal/artifactstore/export.go:152-193 | a fresh stage takes any readable list of files none of which lies below another or below the manifest's name |
| `Export.WriteManifest` | backend/internal/artifactstore/export.go:208-214 | the manifest is written beside the staged files without displacing any |
| `Export.StagingKeepsAbsent` | backend/internal/artifactstore/export.go:155-158 | whatever happens in the stage, the destination stays absent and its parent leads where it led |
| `Export.CommitDelivers` | backend/internal/artifactstore/export.go:215-222 | after the rename recovery verifies the delivery; a mismatch would need a retained list that contradicts itself |
| `Export.CommitOrDiscard` | backend/internal/artifactstore/export.go:159-222 | the rename delivers or the stage is removed; every state on the way is recoverable |
| `Export.StageAndCommit` | backend/internal/artifactstore/export.go:155-222 | from the private directory to the rename, every state on the way is absent or delivered |
| `Export.Export` | backend/internal/artifactstore/export.go:114-223 | an accepted delivery has a valid accepting decision of the user for this outcome and contract revision, and every list whose version was accepted has exactly the delivered files; a draft has no decision; nothing lies under the manifest's name; afterwards the destination physically holds every live file and a manifest that describes the delivery field by field; stopped after any of its steps recovery answers absent or the whole delivery's verdict, which is verified for a receipt that lists each path once; refused requests change nothing; on a reliable disk and store such a request to an absent destination spelled without links goes through if its files can be read and laid out |
| `Export.AllowedMeans` | backend/internal/artifactstore/export.go:81-138 | exactly which requests are allowed: a valid complete receipt that leaves the manifest's name free, and either a draft without a decision or the owner's acceptance of this outcome, contract revision and version |
| `CommandBroker.Broker.Register` | backend/internal/browserruntime/broker.go:158-168 | a request is registered only against a present connection, which is the one returned |
| `CommandBroker.Broker.Replace` | backend/internal/browserruntime/broker.go:248-253 | the new connection stands, nothing is pending, and everything that was pending is handed to the caller |
| `CommandBroker.Broker.Clear` | backend/internal/browserruntime/broker.go:373-383 | clears and takes everything if the connection is current, else changes nothing |
| `CommandBroker.Broker.RemovePending` | backend/internal/browserruntime/broker.go:392-396 | exactly that request leaves the pending map |
| `CommandBroker.Broker.Resolve` | backend/internal/browserruntime/broker.go:348-371 | a pending request leaves the map and its channel holds the reply's own error, or the default one, if it reports failure; else its result, an empty object for an absent or null one, or that it cannot be decoded; any other reply has no effect |
| `CommandBroker.FailPending` | backend/internal/browserruntime/broker.go:404-408 | every taken channel gets the error once; no send finds a full channel |
| `BrokerRuns.RunKeeps` | backend/internal/browserruntime/broker.go:158-408 | the invariant over pending map, channels, workers, gate and servers holds after every interleaving |
| `BrokerSafety.ExactlyOnePlace` | backend/internal/browserruntime/broker.go:158-200 | in every reachable state a registered request is exactly one of pending, owed by one worker, sent its one result, or withdrawn by its own caller |
| `BrokerSafety.NoSendBlocks` | backend/internal/browserruntime/broker.go:404-408 | no send to a capacity-one channel finds it full |
| `BrokerSafety.NobodyIsStranded` | backend/internal/browserruntime/broker.go:189-200 | a caller that waits on an empty channel is owed a result by a worker, or is pending on the current, still served connection |
| `BrokerSafety.EveryWaiterIsAnswered` | backend/internal/browserruntime/broker.go:260-276 | from every reachable state the end of the current connection's server and the workers' own steps lead to a state where every waiting caller can receive |
| `BrokerSafety.Drain` | backend/internal/browserruntime/broker.go:404-408 | the workers, left to themselves, pay everything they owe in finitely many steps and leave connection, pending map and waiters alone |
| `BrokerSafety.WorkerMoves` | backend/internal/browserruntime/broker.go:373-408 | a worker with work to do always has an enabled step, and each one decreases what is outstanding |
| `BrokerSafety.PendingIsCurrent` | backend/internal/browserruntime/broker.go:162-168 | no connection means nothing pending; every pending request was registered against the present connection |
| `BrokerSafety.GateIsExclusive` | backend/internal/browserruntime/broker.go:278-284 | at most one call writes at a time, and the token is missing exactly while one does |
| `BrokerSafety.FramesInOrder` | backend/internal/browserruntime/broker.go:180-195 | a caller waits only for a command frame that was written whole; a cancel frame follows its command, for a call that reports cancellation |
| `BrokerSafety.DropsAfterFailedWrite` | backend/internal/browserruntime/broker.go:178-187 | a call is about to drop the connection only after its own write failed while its context showed no error |
| `BrokerSafety.AnswersAreCorrelated` | backend/internal/browserruntime/broker.go:196-200 | a caller receives unavailability or what a reply naming its own request tells: success with a result only for a reply that reports success with that result, an error only for one that reports failure with that error or none |
| `BrokerSafety.FirstReplyDecides` | backend/internal/browserruntime/broker.go:348-371 | from the first reply to a pending request on its caller can return nothing but what that reply tells, except that it is cancelled or a write of its own failed |
| `BrokerSafety.UnavailableMeansLost` | backend/internal/browserruntime/broker.go:178-200 | a caller is told the browser is unavailable only if the current connection changed while its request was pending, or after a failed write of its own |
| `BrokerSafety.CancelledOnlyIfCancelled` | backend/internal/browserruntime/broker.go:178-195 | a caller reports cancellation only after its cancellation was noticed before, during or after its write |
| `BrokerSafety.SupersededForever` | backend/internal/browserruntime/broker.go:248-257 | a connection that was replaced or dropped never becomes current again |
| `BrokerSafety.LateEndsAreHarmless` | backend/internal/browserruntime/broker.go:373-379 | however late, the disconnect or failed write of a replaced connection leaves the new connection and its pending commands untouched |
| `BrokerSafety.SupersededIsClosed` | backend/internal/browserruntime/broker.go:248-256 | a replaced connection that is still read is closed or about to be closed by a worker |
| `ChangeFeed.AfterIsTail` | backend/internal/storage/sqlite/queries/changelog.sql:1-3 | in an ascending log the rows after a cursor are one uninterrupted tail |
| `ChangeFeed.Broadcaster.Subscribe` | backend/internal/cdc/broadcast.go:28-40 | ids are never reused, so an old unsubscribe cannot remove a newer subscriber |
| `ChangeFeed.Broadcaster.Unsubscribe` | backend/internal/cdc/broadcast.go:34-39 | exactly that subscription ends |
| `ChangeFeed.Broadcaster.Publish` | backend/internal/cdc/broadcast.go:51-57 | every current subscriber is called exactly once, in any order |
| `ChangeFeed.Poller.constructor` | backend/internal/cdc/poller.go:50-69 | a non-positive batch becomes the default of 512 |
| `ChangeFeed.Poller.SeekToHead` | backend/internal/cdc/poller.go:73-80 | the cursor becomes the latest sequence number; an error leaves it |
| `ChangeFeed.Poller.Poll` | backend/internal/cdc/poller.go:107-120 | every subscriber gets, and the cursor follows, exactly the events of the answer that ascend past the cursor; an error changes nothing |
| `ChangeFeed.FreshAscends` | backend/internal/cdc/poller.go:112-118 | whatever the source answers, what is broadcast strictly ascends from the cursor |
| `ChangeFeed.FreshAreRecords` | backend/internal/cdc/poller.go:107-118 | of any answer, in whatever order, exactly those events are broadcast whose number exceeds the cursor and every number before them |
| `ChangeFeed.FreshKeepsAscending` | backend/internal/cdc/poller.go:112-118 | an answer that ascends past the cursor is broadcast whole |
| `ChangeFeed.PollsDrainBatches` | backend/internal/cdc/poller.go:107-120 | k polls without appends broadcast exactly the next k batches |
| `ChangeFeed.CeilingPollsDrain` | backend/internal/cdc/poller.go:107-120 | everything is drained if and only if at least ceil(n / batch) polls ran |
| `FeedRuns.SubscribersGetTheirSpan` | backend/internal/cdc/broadcast.go:28-57 | in every run each subscriber holds exactly what was broadcast while it was subscribed |
| `FeedRuns.DeliveryIsExact` | backend/internal/cdc/poller.go:18-22 | over the real table, under any interleaving of appends, deletions of a session's rows, polls, subscriptions and seeks, a subscriber that came after the last seek was called in order with exactly the rows ever appended whose numbers went by meanwhile, apart from rows deleted before a poll read past them |
| `FeedRuns.DeliveryIsContiguous` | backend/internal/cdc/poller.go:18-22 | if no row was deleted unread, what it got is one gap-free stretch of all rows ever appended |
| `FeedRuns.BroadcastsAscend` | backend/internal/cdc/poller.go:112-118 | for any source, broadcasts strictly ascend as long as no seek returns behind the last one |
| `FeedRuns.BackwardSeekRepeats` | backend/internal/cdc/poller.go:71-80 | a seek keeps every continuation ascending if and only if it does not return behind the last broadcast |
| `FeedRuns.FallenHeadRepeats` | backend/internal/cdc/poller.go:71-80 | a run from the beginning in which a source whose head falls back has one event broadcast twice |
| `FeedRuns.DeletedHeadSeeksBack` | backend/internal/storage/sqlite/store/session_store.go:283-292 | a run over the real table, ended by the deletion of the newest row, after which a seek returns behind the last broadcast |
| `FeedRuns.LogBroadcastsAscend` | backend/internal/storage/sqlite/queries/changelog.sql:1-6 | over the real table broadcasts strictly ascend in every run, also across seeks that go back: the rows that could repeat are deleted and numbers are never given out again |
| `AttachmentNames.ValidAttachmentIsHarmless` | backend/internal/attachmentstore/store.go:434-468 | a valid name is one plain path segment of letters, digits, dashes, underscores and dots, and in no spelling an SVG |
| `AttachmentNames.ValidAttachmentExactly` | backend/internal/attachmentstore/store.go:434-475 | exactly the names of at most 255 characters that are attachment- or image-, a stem of word characters, a dot, and word characters with single dots between them, and no SVG in any case |
| `AttachmentNames.PathNamesAttachment` | backend/internal/attachmentstore/store.go:334-351 | a stored path names an attachment if and only if, slashes made uniform and one leading slash dropped, it is that valid name directly under one of the two containers |
| `AttachmentNames.WrittenPathIsRecognized` | backend/internal/attachmentstore/store.go:32-34 | the path the store writes is recognized, with either kind of slash |
| `Attachments.Store.Link` | backend/internal/attachmentstore/store.go:482-527 | creates a canonical file only under a free name; an existing one is never replaced |
| `Attachments.Store.Project` | backend/internal/attachmentstore/store.go:482-551 | one projected file is written, through a container that is a link inside the worktree too; without replace only under a free name, with replace over a file or link but no directory |
| `Attachments.Store.TakeBack` | backend/internal/attachmentstore/store.go:90-94 | the rollback removes exactly the name just created, or reports failure |
| `Attachments.Store.Put` | backend/internal/attachmentstore/store.go:61-97 | success leaves the bytes canonical and projected; failure leaves the canonical store unchanged unless the rollback itself failed; on a reliable disk success is characterized exactly |
| `Attachments.Store.ImportContainer` | backend/internal/attachmentstore/store.go:151-214 | a container adds exactly its eligible files whose names are free, never replaces one, creates no storage when it has none, and is refused when it is a link |
| `Attachments.Store.ImportWorkspace` | backend/internal/attachmentstore/store.go:103-144 | canonical files win, then the current container, then the legacy one; a failure has imported part of that and lost nothing |
| `Attachments.Store.MaterializeWorkspace` | backend/internal/attachmentstore/store.go:220-272 | the projection gains exactly the canonical files; the flag says whether any was written |
| `AttachmentHistory.ImportPrecedence` | backend/internal/attachmentstore/store.go:126-135 | which bytes each name has after an import, and exactly which names |
| `AttachmentHistory.ImportIsIdempotent` | backend/internal/attachmentstore/store.go:99-144 | importing the same worktree again changes nothing |
| `AttachmentHistory.CarryOver` | backend/internal/attachmentstore/store.go:99-272 | import then materialize into a fresh worktree gives every name its canonical bytes, else the current container's, else the legacy one's |
| `AttachmentHistory.History` | backend/internal/attachmentstore/store.go:61-272 | no sequence of put, import, materialize and tampering with worktrees ever changes or loses canonical bytes |
| `Schemas.Base` | backend/cmd/gencodexproto/main.go:188-208 | the base of a schema is itself or one of its arms |
| `Schemas.BaseIs` | backend/cmd/gencodexproto/main.go:187-208 | an anyOf whose other arms are all null is its one arm; else a wrapper of one allOf arm without reference and properties is that arm; anything else is itself |
| `GoTypes.ExportIsIdempotent` | backend/cmd/gencodexproto/main.go:1022-1060 | an exported name is a Go identifier and exporting it again, with an empty field appended, gives the same name |
| `GoTypes.ExportKeepsLetters` | backend/cmd/gencodexproto/main.go:1022-1060 | an exported name has all the letters and digits of the name in their order, up to case, behind an N where the first is a digit |
| `GoTypes.RefNamesDefinition` | backend/cmd/gencodexproto/main.go:381-386 | a reference to a definition, wherever definitions are kept, has that definition's Go name |
| `GoTypes.InlineIsNamed` | backend/cmd/gencodexproto/main.go:392-460 | a type with an unnamed object in it mentions exactly that object's name |
| `GoTypes.InlineIffObject` | backend/cmd/gencodexproto/main.go:392-460 | a type has an unnamed object in it if and only if its schema, null and wrappers stripped and arrays and maps followed inwards, ends in an object with properties |
| `GoTypes.InlineIsPart` | backend/cmd/gencodexproto/main.go:392-460 | an unnamed object is part of the schema it was found in, hence no larger |
| `GoTypes.MentionsResolve` | backend/cmd/gencodexproto/main.go:392-460 | any other name a type mentions is that of a reference written in the schema |
| `GoTypes.RawIsLastResort` | backend/cmd/gencodexproto/main.go:392-460 | a base becomes raw JSON exactly if it has no reference and no enum and is an object that says nothing of its members, or has no known type and is no union of text enums |
| `GoTypes.IntegersHold` | backend/cmd/gencodexproto/main.go:423-428 | an integer's Go type holds exactly the 64-bit numbers, unsigned for the formats uint64 and uint32 |
| `Widening.MergeIsJoin` | backend/cmd/gencodexproto/main.go:800-815 | merging two arms' types is idempotent and commutative, absorbs, and has raw JSON at the top |
| `Widening.MergeIsAssociative` | backend/cmd/gencodexproto/main.go:800-815 | merging is associative |
| `Widening.FoldIsCommon` | backend/cmd/gencodexproto/main.go:913-928 | over all arms the field has the common type if they agree, the canonical type if they share one JSON kind, raw JSON otherwise |
| `Widening.OrderDoesNotMatter` | backend/cmd/gencodexproto/main.go:913-928 | the result depends only on which types occur, not on the order or number of arms |
| `Widening.SettlesUnlessCircular` | backend/cmd/gencodexproto/main.go:821-860 | resolving a named type along single allOf references returns if and only if the chain does not come back to a name it passed; otherwise no number of lookups settles it |
| `Widening.NameKindIs` | backend/cmd/gencodexproto/main.go:838-860 | the kind of a name is text for a definition of text, else that of the first scalar type declared with null and wrappers stripped, else that of the one reference in its wrapper where following it ends, else none |
| `Widening.SelfReferenceNeverSettles` | backend/cmd/gencodexproto/main.go:854-856 | a set of definitions for which it does not return: one that refers to itself in two wrappers, under any name |
| `Declarations.InlinesAreSmaller` | backend/cmd/gencodexproto/main.go:735-760 | the unnamed objects found in a struct's fields are together no larger than those fields |
| `Declarations.FieldsAreGrounded` | backend/cmd/gencodexproto/main.go:735-760 | a struct's fields mention resolving references and the unnamed objects found with them, nothing else |
| `Declarations.TallyOne` | backend/cmd/gencodexproto/main.go:890-928 | one more property merges its own type and leaves every other field's alone |
| `Declarations.UnionIsGrounded` | backend/cmd/gencodexproto/main.go:876-969 | a flattened union mentions resolving references and the unnamed objects found with it, nothing else |
| `ProtocolTypes.UniqueEnumName` | backend/cmd/gencodexproto/main.go:974-981 | the loop ends with a name not used before, the exported value followed by underscores only, and by none if it was free |
| `ProtocolTypes.RenderConstants` | backend/cmd/gencodexproto/main.go:660-670 | every value keeps its place and gets a constant name of its own, with underscores appended only where an earlier constant has the name already |
| `ProtocolTypes.CollectValues` | backend/cmd/gencodexproto/main.go:677-698 | an enum union's values are the strings of all arms, each once, in order of first appearance |
| `ProtocolTypes.TaggedUnion` | backend/cmd/gencodexproto/main.go:496-534 | the discriminator is the least name that is a single-value enum in every one of two or more arms, or none |
| `ProtocolTypes.TagIsLeast` | backend/cmd/gencodexproto/main.go:496-534 | there is a discriminator exactly if two or more arms share a property that is a single-value enum in all of them, and it is the least such name |
| `ProtocolTypes.DeclaredByCase` | backend/cmd/gencodexproto/main.go:651-733 | a definition becomes a type with constants exactly if its own enum or every arm is text, and a struct exactly if otherwise it has properties or a discriminator |
| `ProtocolTypes.AliasOfObjectMentionsItself` | backend/cmd/gencodexproto/main.go:711-732 | a definition of the last case mentions itself if and only if its schema ends in an unnamed object, which then is called like the definition and gets no declaration |
| `ProtocolTypes.WrappedObjectIsSelfAlias` | backend/cmd/gencodexproto/main.go:711-732 | a concrete definition that is rendered as a type defined as itself |
| `Renderer.TypeRenderer.RenderStruct` | backend/cmd/gencodexproto/main.go:735-794 | an emitted name is left alone; otherwise one struct is declared with exactly one field a property whose name exports to something, of its key and Go type, a pointer if and only if the member may be left out or null and the type is no slice, map or raw JSON; its unnamed objects join the list |
| `Presence.StructTellsMissing` | backend/cmd/gencodexproto/main.go:780-788 | after decoding any object a scalar field of a struct tells a missing or null member from a zero exactly where the schema lets the member be missing or null |
| `Presence.UnionTellsMissing` | backend/cmd/gencodexproto/main.go:944-951 | in a flattened union every scalar field but the tag tells them apart |
| `Renderer.TypeRenderer.RenderFlattenedUnion` | backend/cmd/gencodexproto/main.go:876-969 | declares the flattened struct, the tag first as a plain value of its own type, each other property once with the join of its types and as a pointer unless the type can be nil, and the tag's type with each value once |
| `Renderer.TypeRenderer.RenderDef` | backend/cmd/gencodexproto/main.go:651-733 | declares the definition by the first of five cases that applies, the last one as an alias if its target is raw JSON and as a defined type otherwise, with its tag's type, and lists the unnamed objects it mentions |
| `Renderer.TypeRenderer.RenderInlines` | backend/cmd/gencodexproto/main.go:642-648 | the growing list is walked to its end because the sizes still to visit strictly decrease, and then every name on it is declared, by its own struct where the name was free |
| `Renderer.TypeRenderer.RenderTypes` | backend/cmd/gencodexproto/main.go:627-649 | for any definitions and however kinds are resolved: every type a declaration mentions is declared (references resolving) and every unnamed object's name is emitted; where no definition is called like another's tag type, no name is declared twice and the first definition of each Go name is declared as it asks; where no two unnamed objects ask for one name, each has its own struct |
| `Decoding.BaseAdmits` | backend/cmd/gencodexproto/main.go:186-208 | stripping the null arm or a wrapper loses no value but null |
| `Decoding.GoTypeIsSound` | backend/cmd/gencodexproto/main.go:390-460 | every JSON value a schema admits decodes into the Go type it is given, if named types decode what their definitions admit, the parts the type is made from pass a check on types and enums, and no member inside it is taken for a property of another case whose schema refuses it |
| `Decoding.GoTypeIsSoundExactly` | backend/cmd/gencodexproto/main.go:390-460 | for schemas without combinators that check is exact: the type decodes every such value if and only if each inline enum leaves only strings or null and the first type takes in the others wherever the type depends on it |
| `Decoding.OutsideTheSubset` | backend/cmd/gencodexproto/main.go:402-420 | two concrete schemas that fail it, a numeric enum and a second type |
| `Decoding.StructIsSound` | backend/cmd/gencodexproto/main.go:735-793 | every member that meets a field, by its name or else by a name of another case, decodes into it, if the property of that field admits the member |
| `Decoding.StructDecodesExactly` | backend/cmd/gencodexproto/main.go:735-793 | an object the schema admits decodes if and only if every member that differs in case from the field it meets has a value that field takes |
| `Decoding.CaseVariantFails` | backend/cmd/gencodexproto/main.go:793 | an admitted object that does not: a number under X where the struct has a string under x |
| `Decoding.MergeIsUpperBound` | backend/cmd/gencodexproto/main.go:796-815 | what either arm's type decodes, the merged type decodes |
| `Decoding.FoldIsUpperBound` | backend/cmd/gencodexproto/main.go:917-928 | a field's joined type decodes what its type in any arm decodes |
| `TaggedUnions.TaggedUnionIsSound` | backend/cmd/gencodexproto/main.go:872-969 | an object a tagged union admits by some arm decodes into the flattened struct in every member that arm declares, the tag included |
| `TaggedUnions.TagDecodesExactly` | backend/cmd/gencodexproto/main.go:496-534 | for a union of plain objects the tag of every admitted object has a constant if and only if every arm's tag enum leaves only a string or null |
| `TaggedUnions.NumberedTagFails` | backend/cmd/gencodexproto/main.go:496-534 | the shortest union that fails it: two arms whose tag is the number 1 |
| `TaggedUnions.OwnMembersDecode` | backend/cmd/gencodexproto/main.go:872-969 | an object whose members that meet a field all belong to properties of one admitting arm decodes as a whole |
| `TaggedUnions.UnionDecodesExactly` | backend/cmd/gencodexproto/main.go:872-969 | case variants aside, every object that some arm of a union of plain objects admits decodes as a whole if and only if each field that some arm does not declare has a type that takes any value |
| `TaggedUnions.OnlyRawTakesAll` | backend/cmd/gencodexproto/main.go:800-815 | the types that take any value are raw JSON and a named type that decodes everything |
| `TaggedUnions.StrayMemberFails` | backend/cmd/gencodexproto/main.go:913-928 | the shortest union that fails it, with an admitted object: its member is declared by another arm only |
| `Decoding.JsonKindIsSound` | backend/cmd/gencodexproto/main.go:818-860 | the kind a name resolves to is the kind of every value of that name's definition, reference chains included |
| `Soundness.EnumIsSound` | backend/cmd/gencodexproto/main.go:656-671 | every value a string enum admits has a constant |
| `Soundness.EnumUnionIsSound` | backend/cmd/gencodexproto/main.go:674-698 | every value an enum union admits has a constant |
| `Soundness.DeclaredAs` | backend/cmd/gencodexproto/main.go:711-732 | a definition is declared as an alias if and only if it comes to raw JSON, and one that is a reference and nothing else as a type defined by that name |
| `Soundness.DefinitionIsSound` | backend/cmd/gencodexproto/main.go:651-733 | a value that suits a definition is decoded by its declaration in each of the five cases, if the definition passes its check and what it mentions decodes; where the declaration only points to another one, the value suits what that stands for |
| `References.ChainReaches` | backend/cmd/gencodexproto/main.go:711-732 | where the chain of references from a name ends, the chain of declarations does too, in an alias exactly if the end is rendered as raw JSON, and its end decodes the value |
| `References.ChainBack` | backend/cmd/gencodexproto/main.go:711-732 | where the chain of declarations ends the chain of references does, in the same way |
| `References.ReferenceDecodesExactly` | backend/cmd/gencodexproto/main.go:722-732 | a definition that is a reference and nothing else decodes a value that suits it if and only if its chain of references ends in a definition that is not raw JSON, or the value is null, or the chain ends in raw JSON and []byte takes the value; otherwise (circular chains too) it decodes null only |
| `References.RawReferenceFails` | backend/cmd/gencodexproto/main.go:722-732 | two definitions for which it fails: B admits a number and is an alias of raw JSON, A refers to B and is defined as bytes |
| `Generated.GeneratedTypesDecode` | backend/cmd/gencodexproto/main.go:627-733 | the whole output, with no assumption about named types: every value that suits a definition decodes into the type declared for it, to any depth of names, if and only if the end of the chain of every definition that is a reference and nothing else takes what suits it; definitions and unnamed objects pass their checks and each has its own declaration |
| `Framing.PrefixComesThrough` | backend/internal/cli/browser.go:656-657 | a prefix of the replaced text without the escape's first character was a prefix of the text |
| `Framing.ReplacingMakesNoMarker` | backend/internal/cli/browser.go:656-657 | replacing a marker leaves none of it and creates none of the other |
| `Framing.EscapedTextHasNoMarker` | backend/internal/cli/browser.go:652-657 | after both replacements neither marker occurs: the second does not bring back what the first removed |
| `Framing.FrameIsUnambiguous` | backend/internal/cli/browser.go:652-659 | for every input the begin marker occurs only at the start and the end marker only at the end of the output |
| `Framing.OrdinaryTextIsKept` | backend/internal/cli/browser.go:652-657 | text without the marker is passed through unchanged |
| `Framing.ReplacingSwapsTheWord` | backend/internal/cli/browser.go:656-657 | replacing changes the pattern wherever it stands and not a character of what stands between, before or after |
| `Framing.FramedTextIsThePages` | backend/internal/cli/browser.go:652-659 | for every input the output is the two frame lines around the page's own text, in which only the first character of each marker it held is escaped |

## Left out

- Mode bits beyond permissions, umask, fsync ordering, Windows rename retries and concurrent outside changes to the file system.
- Git subprocesses: their output is an input; `Continuity` assumes it covers every difference and calls a path deleted only if it is absent.
- Directory walks of staged folders: the listing they produce is an input.
- `Disk.Rename` refuses every existing destination; replacing an empty directory, which some platforms allow, is modelled for publication runs only.
- Supplied documents and receipt deletion: the same stage, verify and publish shape with flat names, easier members only.
- Detail strings, timestamps, identifiers and log lines of receipts, manifests and verdicts.
- Files at an export destination beyond the delivered ones: `VerifyExport` never lists the directory, so containment is stated, not equality.
- Overlay.SucceedsExactlyWhenReady: does not cover handoffs in which one path lies below another, because there the outcome depends on the order in which a file turns into a directory.
- The broker's byte stream, tokens, deadlines and listeners: a write that its own cancelled context cut short leaves the connection open, so nothing is claimed about frames on the wire.
- Removing a session's attachments, serving them over HTTP, and the temporary file each write goes through before it is linked or renamed.
- Names whose bytes and characters differ: attachment names are checked against an ASCII alphabet first, so the length limit counts characters.
- Generated Go text, comments, method tables, struct-field name uniqueness and merging of definition files.
- Whether the output compiles: circular type definitions and structs that contain themselves by value are declared as they are.
- Property names that a struct tag cannot carry: with a comma, quote or backslash, or a lone dash, the decoder reads another key than the one written.
- Case folding of keys beyond ASCII letters, the Kelvin sign and the long s.
- Renderer.TypeRenderer.RenderTypes: takes one kind for each name; where several definitions export to one Go name the code may come upon another of them at each look-up, and where widening looks up a circular name it does not return.
- Decoding.GoTypeIsSound: does not speak of numeric ranges, of `required`, or of how many arms of a oneOf match; validity is read generously there, which makes the statement cover more values.
- Decoding.GoTypeIsSoundExactly: does not cover oneOf, anyOf and allOf, where whether an arm's values survive depends on its neighbours; for those the check is sufficient.
- Generated.GeneratedTypesDecode: leaves out values with members that only another arm of a tagged union declares or that differ in case from a declared one and do not fit it, for which it is false; TaggedUnions.UnionDecodesExactly and Decoding.StructDecodesExactly have the conditions.
- Links between the two attachment containers of one worktree: each is a shelf of its own.
- Widening.FoldIsCommon: does not claim that the canonical integer type holds every value, because uint64 widens to int64.
- The planner, the Electron process, other commands, configuration and daemon wiring.

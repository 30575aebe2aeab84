# PassPonyCore, verified

A Dafny model of `pass-core`, the crate that holds the logic of a pass/passage password
store: what it does to bytes, files and git histories, and proofs that it does what its
documentation and tests promise. Each module follows one part of the crate. Where the
source is a loop or changes state, the model is a method with a loop or a class with
fields, proved equal to a function; the laws are lemmas about that function.

- `Commits`, `Rebase`, `Sync`, `Network`: the git protocol. A commit is a tree, its parents
  and a message; blobs are object ids. libgit2's merge of three trees is a given function,
  any function at all for the protocol laws. The laws about single paths assume of it that
  it merges path by path, blobs whole, where neither side renames a file (`NoRename`), no
  file of one side is a directory of the other (`NoClash`) and no file changed on both sides
  is text (`AllBinary`). `Sync.GitStore` is a repository with its remote, `Network` any number
  of devices and one remote that takes fast-forwards only, stepping in any order.
- `Names`, `Recipients`, `StoreSpec`, `Store`: the store on disk. A file is text or a
  ciphertext known by its plaintext, its recipients and the salt the crypto engine chose; the
  engine may refuse anything, and otherwise decrypting undoes encrypting. `Store.Store` changes the tree in place.
- `EntryCodec`, `EntryLaws`, `HotpAdvance`, `Passkeys`: the byte-exact editing of an entry.
- `KnownHosts`: the pinned SSH hosts, a text file of whatever lines that is edited like a
  list of pins, and the map such a list represents.
- `Bits`, `Base32`, `Base64`, `Percent`, `Decimal`, `Otp`, `OtpCode`: one-time-password
  lines, their codecs and codes.
- `Protobuf`, `Migration`: authenticator exports.
- `Backup`, `RecoveryCode`, `Identities`: the backup container, its codes, the merge of age
  identities.
- `Generate`: the password generator and its exact uniformity.
- `Text`, `Utf8`, `Order`: strings the way Rust holds them, one `char` per byte.

`dafny verify dfyconfig.toml` checks everything.

## Where the code falls short, exactly

The code is modelled as it is; these are the places where a promise or an expectation does
not hold, each with the condition under which it does.

- `docs/conflict-ux.md` promises that keeping both loses nothing silently. The sibling is
  written without a look at what is there. A `.conflict` entry from another device is
  overwritten (`Rebase.SiblingOverwritten`); and where a path and its sibling are both in
  conflict, the later of the two writes to the sibling wins and the other blob is lost, while
  the sibling is reported as the copy (`Rebase.DoubleConflict`, `Rebase.BlobLost`). One
  replayed commit loses nothing, whatever the answers, exactly when what stands at each
  sibling written is the local blob anyway (`Rebase.KeptTwiceIff`); for a whole rebase see
  `Rebase.RebaseKeepBoth`.
- Nothing switches libgit2's rename detection off, and moving a pass entry between equal
  recipients keeps its bytes. A local edit can so land on a path only the remote touched,
  with nothing asked (`Rebase.RenameCarriesEdit`); the laws about single paths exclude it by
  `Rebase.NoRename`.
- Not every answer finishes a sync. A file deleted here and edited there is in conflict:
  keeping local brings the file back, and keeping both, with nothing at the sibling's path,
  ends the sync with an error in the middle of the rebase (`Rebase.DeletionConflict`). So does
  keeping both with a directory in the sibling's place (`Rebase.DirectoryAtSibling`). Nothing
  else does, exactly (`Rebase.PickStopsIff`, `Rebase.ReplayStopsIff`).
- `git.rs` has an error for a rewritten upstream, and `docs/conflict-ux.md` describes
  detecting one before any rebase; no code path returns it. `Sync.RewrittenUpstream` says what
  a sync does instead, `Sync.RewrittenReplayed` gives a history.
- An HOTP line with two `counter` parameters hands out the same code twice, since the first
  is rewritten and the last is read (`HotpAdvance.AdvancesIffOneCounter`,
  `HotpAdvance.SameCodeTwice`).
- `set_field` on an empty entry writes line 1, which is not a field
  (`EntryLaws.SetFieldFields`). It also replaces a trailing `\r` together with the value.
- Moving an entry onto itself deletes it (`StoreSpec.MoveConserves`,
  `StoreSpec.MovedOntoItself`); pass copying an entry onto itself empties it, as `fs::copy`
  documents (`StoreSpec.CopyConserves`, `StoreSpec.CopiedOntoItself`).
- Names under `.git` are not listed but can be copied and moved from, and pass copies bytes
  unseen where both sides resolve alike (`StoreSpec.CopiedUnseen`, `StoreSpec.GitCopyBreaks`).
  Which operations so leave an entry for the wrong recipients is exact by
  `StoreSpec.StepSyncIff`.
- A known-hosts line "loses only the matching name", as `ssh.rs` says, unless the first name
  left starts with `#` or `@`: the line is then read as a comment or a marker, and its other
  pins are lost too (`KnownHosts.HiddenPin`). A line left with an empty name can gain a pin
  (`KnownHosts.GainedPin`). `KnownHosts.LineEdit` is exact for every line,
  `KnownHosts.RemoveReads` for files with one of the two.
- A TOTP line may ask for any number of digits. With more than 19 the power of ten overflows:
  a build with overflow checks panics, the release build wraps and still gives the right code
  up to 63 digits, and panics from 64 on (`OtpCode.CodeIs`, `OtpCode.TwentyAndSixtyFour`). A
  line with a zero period reads back with period 1 (`Otp.TotpRoundTrip`).
- A backup section whose kind is all white space is written but cannot be read back
  (`Backup.RoundTrip`).
- Swapping a neighbouring 0 and Z in a recovery code goes unnoticed
  (`RecoveryCode.SwapCaught`, `RecoveryCode.SwapUnseen`).

## Model

| member | source | states |
|---|---|---|
| Commits.AncSmaller | crates/pass-core/src/git.rs:339-353 | commits only point backwards: an ancestor other than the commit itself is strictly older, and its ancestors are ancestors too |
| Commits.AncAntisymmetric | crates/pass-core/src/git.rs:372-394 | two commits that reach each other are the same commit |
| Commits.AncIs | crates/pass-core/src/git.rs:372-394 | a commit reaches itself and what any of its parents reaches |
| Commits.NotAhead | crates/pass-core/src/git.rs:441-449 | `graph_ahead_behind` gives 0 on one side exactly when that side is an ancestor of the other |
| Commits.TodoIsUnreached | crates/pass-core/src/git.rs:463-476 | on a linear history the rebase walk lists exactly the local commits the upstream does not reach |
| Commits.TodoChained | crates/pass-core/src/git.rs:463-476 | the replayed commits form a chain, oldest first, ending in the local head and starting on a shared commit or a root |
| Order.SortedOrder | crates/pass-core/src/git.rs:484-488 | conflicts are taken in byte order of their paths |
| Rebase.SiblingInjective | crates/pass-core/src/git.rs:793-800 | no two files share a `.conflict` sibling, a sibling is never the file itself, and an entry keeps its extension |
| Rebase.SiblingNames | crates/pass-core/src/git.rs:793-800 | `.conflict` goes before an entry's extension and after any other name |
| Rebase.MergedIs | crates/pass-core/src/git.rs:479-484 | the path-wise merge a lawful library reduces to where nothing is renamed: the changed side wins, both sides changed differently is a conflict |
| Rebase.PathMergeLawful | crates/pass-core/src/git.rs:479-484 | the assumptions on libgit2 can be met: merging every path by itself meets them |
| Rebase.ResolveAllIs | crates/pass-core/src/git.rs:485-521 | after one commit, for any mix of answers and any kind of conflict, every path holds what was written to it last, and otherwise what was checked out |
| Rebase.StagedIsWork | crates/pass-core/src/git.rs:499-522 | what is staged in the end is the working tree |
| Rebase.ResolveAllAsks | crates/pass-core/src/git.rs:499-519 | each conflicted path is asked about once, in order, and exactly the siblings of paths kept twice are reported |
| Rebase.ResolveAllStops | crates/pass-core/src/git.rs:485-560 | exactly when one commit cannot be resolved, from the answers and the checked-out files alone: some path kept twice has a sibling that cannot be written, or with no local side to write is no file |
| Rebase.PickIs | crates/pass-core/src/git.rs:478-532 | a replayed commit, at every conflicted path and every sibling written: the chosen side, or the other where that is deleted; a path that is both holds the later write |
| Rebase.PickFrame | crates/pass-core/src/git.rs:478-532 | every other path of a replayed commit is the three-way merge |
| Rebase.PickMakes | crates/pass-core/src/git.rs:524-532 | a replayed commit keeps its message, lands on the head and is skipped iff it changes nothing |
| Rebase.KeptTwiceIff | crates/pass-core/src/git.rs:499-520 | for any mix of answers, a replayed commit keeps every cleanly merged blob, every chosen side and every local blob of a path kept twice iff what stands at each sibling written, merged or chosen, is that local blob anyway |
| Rebase.SiblingOverwritten | crates/pass-core/src/git.rs:513-520 | for any file, a history where keeping both overwrites the `.conflict` entry of the other device |
| Rebase.DoubleConflict | crates/pass-core/src/git.rs:513-520 | a path and its sibling both in conflict and kept twice: the sibling ends with its remote blob, or for a pass entry with the local blob of the path |
| Rebase.BlobLost | crates/pass-core/src/git.rs:513-520 | for any file, such a history: one blob, local or for a pass entry remote, is nowhere afterwards |
| Rebase.RenameCarriesEdit | crates/pass-core/src/git.rs:467-471 | a lawful library that follows one rename: a path no local commit touched ends with the local blob, nothing being asked |
| Rebase.DirectoryAtSibling | crates/pass-core/src/git.rs:548-560 | for any file, a history where a directory in the sibling's place stops the sync |
| Rebase.DeletionConflict | crates/pass-core/src/git.rs:499-520 | a file deleted here and edited there: keeping local brings it back, keeping both stops the sync |
| Rebase.PickStopsIff | crates/pass-core/src/git.rs:478-560 | replaying one commit stops iff some path kept twice has a sibling that is blocked by a directory, or has no local side and no file at its sibling; otherwise no path is both file and directory |
| Rebase.ReplayStopsIff | crates/pass-core/src/git.rs:478-560 | a rebase stops iff the replay comes to such a commit |
| Rebase.ReplayFinishes | crates/pass-core/src/git.rs:478-560 | checked beforehand: a rebase finishes where each path a local commit changes and both may be kept of is a file afterwards, and no tree of either side has a directory in its sibling's place |
| Rebase.ReplayReports | crates/pass-core/src/git.rs:490-546 | a rebase reports the paths in conflict, commit by commit and in byte order, and the siblings of those kept twice |
| Rebase.CopiesAre | crates/pass-core/src/git.rs:513-520 | a path is reported as kept beside iff it is the sibling of one answered to keep both, after the answers before it |
| Rebase.ReplayedBuilds | crates/pass-core/src/git.rs:478-532 | whatever libgit2 merges, the rebased head descends from the upstream head, in a straight line, with at most one new commit per replayed one |
| Rebase.UntouchedStays | crates/pass-core/src/git.rs:478-546 | where libgit2 merges path by path: a path no local commit changed and no kept sibling took keeps the remote blob, whatever is answered and whatever kind the conflicts are |
| Rebase.KeepLocalWins | crates/pass-core/src/git.rs:505-508 | always keeping local: no stop, and what each replayed prefix leaves at a path |
| Rebase.RebaseKeepLocal | crates/pass-core/src/git.rs:463-546 | always keeping local never stops, and exactly, for every path: the local head where a local commit changed it and the remote head elsewhere, except that a file the remote edited and the local commits only delete stays as the remote has it |
| Rebase.RemoteStays | crates/pass-core/src/git.rs:463-546 | a remote blob that no local commit saw stays, unless local is kept or a sibling takes its path |
| Rebase.RebaseKeepBoth | crates/pass-core/src/git.rs:463-546 | always keeping both, to the end: a changed path whose sibling, and as whose sibling, nothing is changed locally ends with the local head's blob, or with the remote one and the local head's beside it; and where no sibling of a changed path is in the remote tree, every remote blob no local commit saw stays |
| Sync.GitStore.Open | crates/pass-core/src/git.rs:227-241 | the repository found at a path in whatever state it is in, or the error that there is none |
| Sync.GitStore.Init | crates/pass-core/src/git.rs:196-225 | a fresh repository: two commits, the contents and then the attributes file, no remote, nothing edited |
| Sync.GitStore.GetStatus | crates/pass-core/src/git.rs:372-395 | dirty, ahead and behind as the refs and trees say; all commits are ahead while the remote was never seen |
| Sync.GitStore.CommitIndex | crates/pass-core/src/git.rs:339-353 | one new commit on the old head (or a root) whose tree is the index |
| Sync.GitStore.CommitPaths | crates/pass-core/src/git.rs:317-329 | the named paths staged, additions and deletions both, then committed |
| Sync.StagedAt | crates/pass-core/src/git.rs:319-326 | exactly the named paths are taken from the working tree, all others from the index |
| Sync.CommitCleans | crates/pass-core/src/git.rs:317-329 | naming every edited path commits the working tree as it is |
| Sync.GitStore.Fetch | crates/pass-core/src/git.rs:408-421 | no remote and no head are errors that change nothing; otherwise the tracking ref follows the remote |
| Sync.GitStore.Pull | crates/pass-core/src/git.rs:425-461 | a dirty tree is refused untouched; otherwise the refs and the result are those of fetch then up-to-date, fast-forward or rebase; where that succeeds the tree is left clean, and a rebase that stops leaves the branch as it was |
| Sync.GitStore.RebaseOnto | crates/pass-core/src/git.rs:463-546 | the replay loop computes the rebase function: head, replayed count, resolved paths, kept siblings and the error it may stop with |
| Sync.GitStore.ResolveConflicts | crates/pass-core/src/git.rs:490-522 | the loop over one commit's conflicts computes the resolution function on index and working tree, up to the first error |
| Sync.GitStore.StageBlob | crates/pass-core/src/git.rs:548-560 | a blob written and staged, refused where a directory or a file in place of one is in the way, or where there is no file |
| Sync.GitStore.Push | crates/pass-core/src/git.rs:562-597 | accepted exactly on a fast-forward, then remote and tracking are the head; a refusal changes nothing |
| Sync.IntegratedReaches | crates/pass-core/src/git.rs:425-461 | whichever branch a successful sync takes, nothing is behind afterwards |
| Sync.StoppedSync | crates/pass-core/src/git.rs:425-560 | a sync ends with a staging error iff the histories have diverged and the replay comes to a commit it is stuck at; the branch ref is then unmoved |
| Sync.IntegratedLinear | crates/pass-core/src/git.rs:425-461 | a sync of linear histories leaves a linear history |
| Sync.OutcomeIs | crates/pass-core/src/git.rs:435-461 | up to date iff the remote head is already reached, fast-forward iff only behind, otherwise the rebase's outcome |
| Sync.OutcomeReports | crates/pass-core/src/git.rs:538-545 | after diverged histories: the conflicted paths in order with exactly the siblings of those kept twice, or with no conflict the number of commits new on the remote head |
| Sync.StatusCounts | crates/pass-core/src/git.rs:372-395 | each commit on top counts one ahead, each fetched on top of what was seen one behind, from 0 and 0 where both are one |
| Sync.StatusUnseen | crates/pass-core/src/git.rs:387-393 | while the remote was never seen the whole history is ahead |
| Sync.SyncTwice | crates/pass-core/src/git.rs:425-461 | after a successful sync a second one with nothing new finds nothing to do |
| Sync.SyncThenPush | crates/pass-core/src/git.rs:425-597 | after a successful sync the remote accepts a push, and then nothing is ahead or behind |
| Sync.RewrittenUpstream | crates/pass-core/src/git.rs:425-461 | a rewritten upstream is not noticed: the commit that vanished is replayed, or counted as up to date and republished when the remote was only wound back |
| Sync.RewrittenReplayed | crates/pass-core/src/git.rs:425-461 | a concrete such history: the vanished commit is the one replayed |
| Sync.GitStore.SetRemote | crates/pass-core/src/git.rs:399-406 | only the remote changes |
| Network.RemoteGrows | crates/pass-core/src/git.rs:562-597 | over any run of any devices the old remote head stays an ancestor of the new one |
| Network.StepFrame | crates/pass-core/src/git.rs:339-597 | a clone joins with what the remote has; every other step is one device's and leaves the others, and but for a push the remote, alone |
| Network.NothingPublishedIsLost | crates/pass-core/src/git.rs:562-597 | a commit that was ever the remote head stays reachable from it for good |
| Network.LocalGood | crates/pass-core/src/git.rs:339-461 | each step keeps histories linear and tracking refs inside the remote history |
| Network.RunGood | crates/pass-core/src/git.rs:339-597 | every run keeps histories linear and tracking refs inside the remote history |
| Network.QuietRun | crates/pass-core/src/git.rs:425-461 | while nobody pushes, a device that only commits keeps its tracking ref and only grows its head |
| Network.PushAfterSync | crates/pass-core/src/git.rs:425-597 | with no push in between, a device whose sync succeeded has its push accepted, however others step and whatever it commits meanwhile, and ends 0 ahead and 0 behind |
| Network.LinearOrder | crates/pass-core/src/git.rs:441-449 | ancestors of one commit in a linear history are ordered |
| Network.NothingUnpushed | crates/pass-core/src/git.rs:435-458 | a device with nothing unpushed ends exactly at the head it fetched |
| Network.Settles | crates/pass-core/src/git.rs:425-461 | while nobody commits or pushes, every device with nothing unpushed that syncs reaches the remote head and stays there, in any interleaving |
| Network.Converges | crates/pass-core/src/git.rs:425-597 | from any state, after each device syncs and pushes in turn and then syncs again, all devices and the remote have one head, however conflicts were resolved, as long as none of the first syncs stops at a conflict |
| Names.SneakyIsDotDot | crates/pass-core/src/store.rs:74-76 | the four string tests reject exactly the paths with a `..` component |
| Names.FileOfInjective | crates/pass-core/src/store.rs:191-198 | different names are different files |
| Names.FileOfIs | crates/pass-core/src/store.rs:191-198 | the file of a name is its components, the last with the format's extension |
| Names.FileOfName | crates/pass-core/src/store.rs:264-283 | stripping a listed file to its name and building the file again gives that file |
| Names.EntryIsNoRecipients | crates/pass-core/src/store.rs:23-38 | an entry file is never a recipients file, in either format |
| Names.FileIsEntry | crates/pass-core/src/store.rs:250-286 | a name's file is listable exactly when its directory avoids `.git` |
| Recipients.ParseGpgIds | crates/pass-core/src/store.rs:535-549 | the line loop computes the id list |
| Recipients.GpgIdsLines | crates/pass-core/src/store.rs:535-549 | exactly the terminated lines are read, each cut at `#` and trimmed; an unterminated last line is dropped |
| Recipients.NamedSpread | crates/pass-core/src/store.rs:122-134 | lines that name recipients are read in order, whatever comments and empty lines stand around them |
| Recipients.ResolveRecipients | crates/pass-core/src/store.rs:499-528 | the upward loop computes the resolution function, sneaky names refused |
| Recipients.RecipientsFor | crates/pass-core/src/store.rs:308-311 | the recipient list to encrypt to, or why there is none |
| Recipients.NearestAncestor | crates/pass-core/src/store.rs:507-523 | resolution stops at the nearest ancestor directory that holds a recipients file |
| Recipients.NoAncestor | crates/pass-core/src/store.rs:524-527 | with no recipients file up to the root, the fallback or the refusal |
| Recipients.ResolvedListed | crates/pass-core/src/store.rs:122-528 | where the nearest recipients file lists recipients one a line, in either format and with comments and empty lines anywhere, exactly those are resolved; an unterminated last line counts for passage only |
| Recipients.ResolvedErrors | crates/pass-core/src/store.rs:499-528 | a sneaky name is refused; with no recipients file passage falls back to its identities and pass has no key |
| Recipients.SameResolved | crates/pass-core/src/store.rs:499-528 | resolution depends on the recipients files and nothing else |
| Recipients.EntryKeepsRecipients | crates/pass-core/src/store.rs:302-340 | writing or deleting an entry file touches no recipients file |
| StoreSpec.WriteIs | crates/pass-core/src/store.rs:302-318 | success: the entry is for exactly its resolved recipients and no other file changes; failure: no file changes |
| StoreSpec.WriteErrors | crates/pass-core/src/store.rs:302-318 | each error of a write in its order; otherwise it succeeds and the directories are there |
| StoreSpec.RemoveIs | crates/pass-core/src/store.rs:323-340 | exactly the entry's file goes; a refused removal changes nothing |
| StoreSpec.RemoveErrors | crates/pass-core/src/store.rs:323-340 | a removal succeeds iff the name is sound and its file exists |
| StoreSpec.TransferIs | crates/pass-core/src/store.rs:365-399 | a copy or move touches its two files alone, and a failing one no file |
| StoreSpec.TransferErrors | crates/pass-core/src/store.rs:365-399 | a copy or move succeeds iff names are sound, the source exists, the destination can be put and its bytes made |
| StoreSpec.MoveIsCopyRemove | crates/pass-core/src/store.rs:346-399 | a move is the copy and then the removal |
| StoreSpec.MoveConserves | crates/pass-core/src/store.rs:346-399 | a move conserves the plaintext and every other file; the destination exists afterwards iff the two names differ |
| StoreSpec.MovedOntoItself | crates/pass-core/src/store.rs:346-399 | a concrete move onto itself: no error, and the entry is gone |
| StoreSpec.CopyConserves | crates/pass-core/src/store.rs:356-399 | a copy conserves the plaintext and its source exactly unless pass copies a nonempty file onto itself |
| StoreSpec.CopiedOntoItself | crates/pass-core/src/store.rs:379-394 | a concrete pass copy onto itself: no error, and the entry is empty |
| StoreSpec.PutKeepsSync | crates/pass-core/src/store.rs:302-318 | a ciphertext for the resolved recipients keeps every listed entry current |
| StoreSpec.TransferredIsCurrent | crates/pass-core/src/store.rs:379-394 | what a transfer writes is for the destination's recipients, the bytes pass copies unseen included |
| StoreSpec.CopiedUnseen | crates/pass-core/src/store.rs:379-394 | where pass copies unseen, the copy is current iff the bytes were for the resolved recipients |
| StoreSpec.GitCopyBreaks | crates/pass-core/src/store.rs:264-266 | a concrete store where copying an unlisted file under `.git` breaks the invariant |
| StoreSpec.StepKeepsSync | crates/pass-core/src/store.rs:302-399 | each operation keeps every listed entry encrypted for exactly its resolved recipients |
| StoreSpec.StepSyncIff | crates/pass-core/src/store.rs:302-399 | exactly which operations leave a current store current: all but the transfers whose written bytes, listed, are not for the resolved recipients |
| StoreSpec.RunKeepsSync | crates/pass-core/src/store.rs:302-399 | so does any run of writes, copies, moves and removals, failing ones included |
| StoreSpec.RunKeepsResolution | crates/pass-core/src/store.rs:302-399 | and no such run changes what any name resolves to |
| StoreSpec.EntriesAre | crates/pass-core/src/store.rs:242-286 | the listing is exactly the entry files outside `.git` |
| StoreSpec.UnderPrefixIs | crates/pass-core/src/store.rs:404-418 | the targets are exactly the listed names under the prefix |
| StoreSpec.TargetsAre | crates/pass-core/src/store.rs:404-418 | the targets are the listed names below the subpath, all for an empty one, however many slashes end it |
| StoreSpec.ReencryptedErrors | crates/pass-core/src/store.rs:425-475 | re-encrypting one entry: each error in its order, otherwise its plaintext for its resolved recipients |
| StoreSpec.UnreadableMeans | crates/pass-core/src/store.rs:449-475 | an entry is passed over iff the engine cannot decrypt it or has no usable key |
| StoreSpec.ReencryptConcat | crates/pass-core/src/store.rs:425-475 | a run is its parts one after another, and the first error ends it |
| StoreSpec.ReencryptConserves | crates/pass-core/src/store.rs:425-475 | wherever a re-encryption stops, every entry has its old plaintext, recipients files are unchanged and only rewritten names changed; without error the counts add up |
| StoreSpec.ReencryptCurrent | crates/pass-core/src/store.rs:425-475 | each rewritten entry ends for exactly its resolved recipients |
| StoreSpec.SubtreeRestores | crates/pass-core/src/store.rs:425-442 | from any state, a successful re-encryption of the whole store makes every listed entry current |
| StoreSpec.ReadablePartition | crates/pass-core/src/store.rs:449-475 | rewritten and skipped partition the targets: skipped iff this device cannot open it, and then byte-identical |
| StoreSpec.OutsideUntouched | crates/pass-core/src/store.rs:404-475 | entries outside the subpath are byte-identical, whether the run succeeds or stops |
| Store.StepWellFormed | crates/pass-core/src/store.rs:302-399 | no operation breaks the directory tree |
| Store.PruneWellFormed | crates/pass-core/src/store.rs:329-339 | pruning removes empty directories only, and leaves a tree |
| Store.PruneIs | crates/pass-core/src/store.rs:330-340 | pruning takes exactly the directories on the way that hold nothing else |
| Store.RemoveDirs | crates/pass-core/src/store.rs:323-340 | after a removal exactly the directories that hold something else are left |
| Store.AllThrough | crates/pass-core/src/store.rs:250-286 | everything listed below a directory is reached through one of its children |
| Store.Store.Open | crates/pass-core/src/store.rs:175-181 | the store at a directory with whatever it holds, or the error that there is none |
| Store.Store.Write | crates/pass-core/src/store.rs:302-318 | computes the write function: tree and error |
| Store.Store.MakeDirs | crates/pass-core/src/store.rs:313-316 | creates every missing parent, or nothing when a file is in the way |
| Store.Store.AtomicWrite | crates/pass-core/src/store.rs:144-160 | replaces the file, or nothing over a directory |
| Store.Store.Remove | crates/pass-core/src/store.rs:323-340 | computes the removal, its pruning loop included |
| Store.Store.Transfer | crates/pass-core/src/store.rs:365-399 | computes the transfer: tree and error |
| Store.Store.Content | crates/pass-core/src/store.rs:379-394 | the bytes a transfer writes |
| Store.Store.SetRootRecipients | crates/pass-core/src/store.rs:488-493 | replaces the root recipients file alone |
| Store.Store.CollectEntries | crates/pass-core/src/store.rs:250-286 | the walk finds exactly the entries listed below a directory, each once |
| Store.Store.Entries | crates/pass-core/src/store.rs:242-248 | the sorted listing of exactly the listed names |
| Store.Store.ReencryptTargets | crates/pass-core/src/store.rs:404-419 | computes the targets, sneaky subpaths refused |
| Store.Store.ReencryptLoop | crates/pass-core/src/store.rs:431-474 | computes the re-encryption: tree, rewritten names, skipped count and error |
| Store.Store.ReencryptSubtree | crates/pass-core/src/store.rs:425-442 | the tree and the result of re-encrypting a subtree, the first error reported |
| Store.Store.ReencryptReadable | crates/pass-core/src/store.rs:449-475 | the tree and the report when unreadable entries are passed over |
| EntryCodec.Entry.PasswordOf | crates/pass-core/src/entry.rs:48-54 | the first line |
| EntryCodec.Entry.SetPassword | crates/pass-core/src/entry.rs:57-66 | line 1 replaced, every byte after it kept |
| EntryCodec.Entry.FieldsOf | crates/pass-core/src/entry.rs:73-94 | the `key: value` lines after line 1, in order |
| EntryCodec.Entry.OtpauthSpan | crates/pass-core/src/entry.rs:264-283 | the scan finds the first URI line and its byte range |
| EntryCodec.Entry.OtpauthOf | crates/pass-core/src/entry.rs:97-102 | the first URI line, when it is UTF-8 |
| EntryCodec.Entry.SetOtpauth | crates/pass-core/src/entry.rs:117-131 | the first URI line's text replaced, or a line appended |
| EntryCodec.Entry.RemoveOtpauth | crates/pass-core/src/entry.rs:138-154 | the first URI line cut with its ending, never line 1 |
| EntryCodec.Entry.SetField | crates/pass-core/src/entry.rs:162-211 | the first matching line's value replaced, or a line appended |
| EntryCodec.Entry.RemoveFieldWhere | crates/pass-core/src/entry.rs:230-260 | the first matching line cut |
| EntryCodec.Entry.AppendField | crates/pass-core/src/entry.rs:216-224 | one line appended, a newline supplied first when missing |
| EntryCodec.AtNext | crates/pass-core/src/entry.rs:264-283 | the scanning loops step from line to line exactly |
| EntryCodec.SpliceLine | crates/pass-core/src/entry.rs:162-211 | rewriting one line's bytes rewrites that line only |
| EntryCodec.CutLine | crates/pass-core/src/entry.rs:230-260 | cutting a line with its ending removes that line only |
| EntryLaws.SetFieldFields | crates/pass-core/src/entry.rs:162-211 | setting a field replaces the first match in the field list or appends, exactly when the entry is not empty |
| EntryLaws.FieldNone | crates/pass-core/src/entry.rs:70-96 | a line gives no field iff it is not UTF-8, is a URI or has no colon |
| EntryLaws.FieldLineIs | crates/pass-core/src/entry.rs:156-200 | the first line after line 1 with the key has its value set, after the space its colon may have |
| EntryLaws.RemovedFieldIs | crates/pass-core/src/entry.rs:230-260 | the first line after line 1 with the key and a wanted value goes with its ending |
| EntryLaws.ShownPlainly | crates/pass-core/src/entry.rs:162-211 | a value without a leading space reads back as given |
| EntryLaws.SetPasswordBytes | crates/pass-core/src/entry.rs:57-68 | setting the password replaces the bytes before the first newline and no others |
| EntryLaws.SetPasswordReads | crates/pass-core/src/entry.rs:57-68 | it reads back, later lines, fields and URI stay, and setting the old one again restores every byte |
| EntryLaws.SetFieldLeaves | crates/pass-core/src/entry.rs:162-211 | setting a field leaves the password and the URI |
| EntryLaws.SetFieldBytes | crates/pass-core/src/entry.rs:162-211 | every byte outside the replaced span, or the appended line and one supplied newline, is identical |
| EntryLaws.SetOtpauthFields | crates/pass-core/src/entry.rs:117-131 | setting the URI never changes a field |
| EntryLaws.RemoveOtpauthFields | crates/pass-core/src/entry.rs:138-154 | removing the URI never changes a field |
| EntryLaws.SetThenRemove | crates/pass-core/src/entry.rs:117-154 | on a nonempty entry without a URI, set then remove restores the bytes up to one supplied final newline |
| EntryLaws.SetOtpauthReads | crates/pass-core/src/entry.rs:97-131 | a written URI reads back, and writing again replaces it |
| EntryLaws.UriLineIs | crates/pass-core/src/entry.rs:97-154 | the first URI line is the one read, replaced and removed, its ending kept, line 1 never removed |
| EntryLaws.NoUriLine | crates/pass-core/src/entry.rs:97-154 | without a URI line none is read or removed, and one is appended |
| HotpAdvance.RewriteCounter | crates/pass-core/src/hotp.rs:174-200 | the flag loop rewrites the first counter parameter, or appends one |
| HotpAdvance.CounterBytes | crates/pass-core/src/hotp.rs:174-200 | a rewritten URI differs in the digits of the first counter only |
| HotpAdvance.CounterAppended | crates/pass-core/src/hotp.rs:174-200 | a URI without a counter gets one appended, the rest unchanged |
| HotpAdvance.RewrittenReads | crates/pass-core/src/hotp.rs:174-200 | with exactly one counter, the rewritten URI reads as the same configuration at the new counter |
| HotpAdvance.UriTwice | crates/pass-core/src/hotp.rs:174-200 | rewriting twice is rewriting once |
| HotpAdvance.AdvanceEntry | crates/pass-core/src/hotp.rs:223-229 | the step and the new bytes; a failing call, overflow included, changes no byte |
| HotpAdvance.AdvanceIs | crates/pass-core/src/hotp.rs:159-229 | one advance: an error iff the counter is the last there is, otherwise the code of the MAC of the next counter and the URI rewritten to it |
| HotpAdvance.AdvanceRun | crates/pass-core/src/hotp.rs:159-229 | k advances succeed iff that many counters are left, and hand out the codes of counters c+1 to c+k, each once, leaving the entry rewritten to c+k |
| HotpAdvance.AdvanceBytes | crates/pass-core/src/hotp.rs:174-229 | the advanced entry is the original bytes with one run of digits replaced |
| HotpAdvance.AdvancesIffOneCounter | crates/pass-core/src/hotp.rs:174-229 | the second advance hands out the next counter iff the URI has exactly one counter parameter, otherwise the same code again |
| HotpAdvance.SameCodeTwice | crates/pass-core/src/hotp.rs:174-229 | such lines: whatever the key and the two counters, both advances hand out the same counter |
| Passkeys.AddPasskey | crates/pass-core/src/webauthn.rs:288-293 | one line appended, after an empty password line on an empty entry |
| Passkeys.RemovePasskey | crates/pass-core/src/webauthn.rs:296-302 | the first line with that credential id removed |
| Passkeys.AddIs | crates/pass-core/src/webauthn.rs:288-293 | adding appends to the list and leaves every other line |
| Passkeys.RemoveIs | crates/pass-core/src/webauthn.rs:296-302 | removing deletes the first value with the id iff there is one, and leaves every other line and the password |
| Passkeys.RunIsList | crates/pass-core/src/webauthn.rs:288-302 | any run of adds and removes is the run on a list, with password and other lines unchanged |
| Passkeys.IdsAreList | crates/pass-core/src/webauthn.rs:279-285 | what is reported is that list, decoded |
| Passkeys.DeletedIds | crates/pass-core/src/webauthn.rs:279-302 | deleting takes the first of its id out of the reported ids and no other |
| Passkeys.AddBytes | crates/pass-core/src/webauthn.rs:288-293 | the bytes added: a newline where one is missing, and the `passkey` line |
| KnownHosts.BlobIs | crates/pass-core/src/ssh.rs:256-269 | a blob is a key iff it starts with a length and a nonempty text of that length |
| KnownHosts.KeyOfBlob | crates/pass-core/src/ssh.rs:256-283 | its type is that text, its base64 decodes to the blob, its fingerprint is the unpadded base64 of the digest |
| KnownHosts.LineFieldsAre | crates/pass-core/src/ssh.rs:273-277 | a key is read iff the third word is the base64 of a key of the type the second word says |
| KnownHosts.FieldsReadBack | crates/pass-core/src/ssh.rs:257-276 | a key written as type and base64 reads back as itself |
| KnownHosts.KnownHostsList | crates/pass-core/src/ssh.rs:306-330 | the loop computes the list of pinned names |
| KnownHosts.RemoveLines | crates/pass-core/src/ssh.rs:378-413 | the line loop computes the edited text |
| KnownHosts.KeepLine | crates/pass-core/src/ssh.rs:381-411 | one line: kept as it is, rewritten without the dropped names, or gone |
| KnownHosts.KnownHostsAdd | crates/pass-core/src/ssh.rs:357-369 | the host's key of that type dropped, the new line appended |
| KnownHosts.KnownHostsRemove | crates/pass-core/src/ssh.rs:371-374 | every line of the host dropped |
| KnownHosts.LineLists | crates/pass-core/src/ssh.rs:306-330 | a written line lists exactly its entry |
| KnownHosts.IdleLine | crates/pass-core/src/ssh.rs:306-330 | empty lines, comments, markers, short lines and mismatched keys list nothing |
| KnownHosts.LineEdit | crates/pass-core/src/ssh.rs:378-413 | editing any line leaves exactly the pins that are not dropped iff it neither hides nor gains one; hiding leaves none, gaining only new ones |
| KnownHosts.RemoveReads | crates/pass-core/src/ssh.rs:371-413 | on any file: where no line gains a pin, removing filters the list iff no line that loses a name is left starting with `#` or `@`, and is short otherwise; where none hides, it filters the list iff no line gains, and is long otherwise |
| KnownHosts.HiddenPin | crates/pass-core/src/ssh.rs:378-413 | a concrete line where forgetting one host unpins another |
| KnownHosts.GainedPin | crates/pass-core/src/ssh.rs:378-413 | a concrete line where forgetting a host pins its key to another word |
| KnownHosts.AddReads | crates/pass-core/src/ssh.rs:357-369 | on any file: pinning is what removing the host's key of that type leaves, and the new pin |
| KnownHosts.PlainRemoves | crates/pass-core/src/ssh.rs:371-413 | in a file whose names are nowhere empty or start with `#` or `@`, removing filters the list, and the file stays so |
| KnownHosts.PlainAdds | crates/pass-core/src/ssh.rs:357-369 | and pinning replaces the host's key of that type and appends |
| KnownHosts.StepReads | crates/pass-core/src/ssh.rs:357-374 | one operation on such a file is that operation on its list of pins |
| KnownHosts.RunReads | crates/pass-core/src/ssh.rs:357-374 | so is any run, from any such file |
| KnownHosts.StepIs | crates/pass-core/src/ssh.rs:357-374 | an operation on a list of pins is that operation on the map it represents |
| KnownHosts.RunIs | crates/pass-core/src/ssh.rs:357-374 | so is any run |
| KnownHosts.EmptyFile | crates/pass-core/src/ssh.rs:306-330 | the empty file is such a file and represents the empty map |
| KnownHosts.ListIsMap | crates/pass-core/src/ssh.rs:306-413 | from any such file that pins each host and type once, after any run, the list is exactly the map, each pin once |
| KnownHosts.CheckIsMap | crates/pass-core/src/ssh.rs:335-413 | and a presented key is trusted, changed (with the pinned fingerprint) or unknown exactly as the map says |
| Bits.PackUnpack | crates/pass-core/src/totp.rs:248-291 | regrouping bytes to symbols and back loses nothing |
| Base32.EncodeBase32 | crates/pass-core/src/totp.rs:248-265 | the unmasked 64-bit accumulator computes the bit grouping of section 6 of RFC 4648 |
| Base32.DecodeBase32 | crates/pass-core/src/totp.rs:269-291 | the unmasked 64-bit accumulator computes the decoding, junk refused |
| Base32.SymbolTable | crates/pass-core/src/totp.rs:248-265 | the alphabet |
| Base32.ValueTable | crates/pass-core/src/totp.rs:278-282 | a character's value is its position in the alphabet, and others have none |
| Base32.RoundTrip | crates/pass-core/src/totp.rs:248-291 | every byte string survives, in exactly ceil(8n/5) characters |
| Base32.OneCharacter | crates/pass-core/src/totp.rs:268-291 | the decoder passes over white space, `-` and `=`, reads the alphabet in either case and refuses everything else |
| Base32.ValuesConcat | crates/pass-core/src/totp.rs:268-291 | text is decoded piece by piece |
| Base64.EncodeBase64 | crates/pass-core/src/ssh.rs:419-438 | the chunk loop computes the encoding of section 4 of RFC 4648, padded or not |
| Base64.DecodeMasking | crates/pass-core/src/ssh.rs:440-456 | the masking accumulator computes the decoding |
| Base64.DecodeUnmasked | crates/pass-core/src/migration.rs:333-355 | the 32-bit accumulator that is never masked computes the decoding |
| Base64.SymbolTable | crates/pass-core/src/ssh.rs:417 | the alphabet |
| Base64.ValueTable | crates/pass-core/src/ssh.rs:443-470 | likewise |
| Base64.RoundTrip | crates/pass-core/src/ssh.rs:419-456 | both decoders invert the encoder, padded or not |
| Base64.EncodeLength | crates/pass-core/src/ssh.rs:419-440 | padded text comes in groups of four, unpadded text has just the characters it needs |
| Base64.TolerantOne | crates/pass-core/src/migration.rs:337-346 | the tolerant decoder reads both alphabets and passes over pads and white space |
| Base64.ValuesConcat | crates/pass-core/src/migration.rs:333-355 | both decoders read text piece by piece |
| Percent.PercentEncode | crates/pass-core/src/totp.rs:325-336 | the byte loop computes the coding of section 2.1 of RFC 3986 |
| Percent.PercentDecode | crates/pass-core/src/totp.rs:294-310 | the index loop computes the decoding, stray `%` passed through |
| Percent.RoundTrip | crates/pass-core/src/totp.rs:294-336 | any text survives, whatever characters it holds |
| Percent.EncodeLacks | crates/pass-core/src/totp.rs:325-336 | no separator survives encoding |
| Percent.HexTable | crates/pass-core/src/totp.rs:314-321 | hexadecimal digits are read in either case and written in upper case |
| Percent.EncodeByteIs | crates/pass-core/src/totp.rs:327-340 | letters, digits and six marks stay, any other byte is escaped |
| Decimal.ParsePrint | crates/pass-core/src/hotp.rs:132-151 | printed numbers read back |
| Decimal.ParseIs | crates/pass-core/src/totp.rs:99-108 | digits parse in base ten, leading zeros and one plus sign allowed, up to the type's largest number |
| Decimal.ParseNothing | crates/pass-core/src/totp.rs:99-108 | nothing else parses |
| Otp.TotpFromUri | crates/pass-core/src/totp.rs:73-127 | the parameter loop computes the parse, errors included |
| Otp.HotpFromUri | crates/pass-core/src/hotp.rs:44-97 | the parameter loop computes the parse, errors included |
| Otp.ReadPairs | crates/pass-core/src/totp.rs:86-119 | the loop over parameters, the last of a name winning |
| Otp.ReadConcat | crates/pass-core/src/totp.rs:86-119 | reading parameters is compositional |
| Otp.ReadErrors | crates/pass-core/src/totp.rs:88-112 | a parameter that does not parse is named with its text |
| Otp.ReadOthers | crates/pass-core/src/totp.rs:110 | other parameters are passed over |
| Otp.TotpRoundTrip | crates/pass-core/src/totp.rs:73-191 | a TOTP configuration reads back from its own line iff it has a secret and a nonzero period |
| Otp.TotpFinishes | crates/pass-core/src/totp.rs:113-130 | a TOTP line needs a key; a zero period counts as 1 |
| Otp.HotpRoundTrip | crates/pass-core/src/hotp.rs:44-151 | an HOTP configuration reads back from its own line iff it has a secret and 1 to 10 digits |
| Otp.HotpFinishes | crates/pass-core/src/hotp.rs:75-97 | an HOTP line needs a key, 1 to 10 digits and a counter, missed in that order |
| Otp.TypeIs | crates/pass-core/src/totp.rs:66-80 | the type is read with a slash after it or without |
| Otp.TotpText | crates/pass-core/src/totp.rs:170-192 | the line as written: defaults left out, parameters in a fixed order |
| Otp.HotpText | crates/pass-core/src/hotp.rs:120-151 | the counter stands right after the key |
| OtpCode.BinaryTruncates | crates/pass-core/src/totp.rs:224-228 | the truncated MAC is the four bytes at the offset of the last byte's low bits, big-endian, top bit cleared |
| OtpCode.CodeIs | crates/pass-core/src/totp.rs:224-235 | a code exists iff at most 19 digits are asked of a build with overflow checks, at most 63 of one without; then it is that many digits (one for none) of the truncated MAC, leading zeros kept, in both |
| OtpCode.TwentyAndSixtyFour | crates/pass-core/src/totp.rs:232 | 20 digits give a code without overflow checks only, 64 in neither build |
| OtpCode.CodeAtIs | crates/pass-core/src/totp.rs:206-235 | the code for a counter is that of the MAC of its eight bytes, big-endian |
| OtpCode.ExampleCode | crates/pass-core/src/totp.rs:224-235 | the example of section 5.4 of RFC 4226 |
| OtpCode.TotpCodeIs | crates/pass-core/src/totp.rs:194-198 | the code at a time is that of the period it falls in, counted from zero |
| OtpCode.WindowHolds | crates/pass-core/src/totp.rs:194-203 | the code's window lasts exactly the seconds remaining |
| Utf8.LossyIsUtf8 | crates/pass-core/src/migration.rs:310-312 | lossy decoding always gives valid text |
| Utf8.TextIsUtf8 | crates/pass-core/src/totp.rs:310 | what code points are written as is valid text |
| Utf8.Utf8IsText | crates/pass-core/src/totp.rs:310 | valid text is what some code points are written as |
| Utf8.LossyIs | crates/pass-core/src/totp.rs:310 | whole characters stay, and each piece that is none becomes U+FFFD |
| Utf8.BadLenIs | crates/pass-core/src/totp.rs:310 | one replacement stands for one byte or the longest start of a character |
| Utf8.SpaceIs | crates/pass-core/src/backup.rs:60 | the white-space characters are those of Unicode |
| Utf8.TrimUtf8 | crates/pass-core/src/migration.rs:152-158 | trimming never cuts a character |
| Protobuf.Reader.Varint | crates/pass-core/src/migration.rs:281-292 | the shifting loop reads ten groups at most, bits past 64 dropped, as the reference does |
| Protobuf.Reader.Key | crates/pass-core/src/migration.rs:293-296 | field number and wire type |
| Protobuf.Reader.ReadBytes | crates/pass-core/src/migration.rs:297-309 | a length-prefixed run, refused past the end |
| Protobuf.Reader.Advance | crates/pass-core/src/migration.rs:322-329 | moves by n, or refuses past the end |
| Protobuf.Reader.Skip | crates/pass-core/src/migration.rs:313-321 | passes over one value of each wire type, others refused |
| Protobuf.VarintRoundTrip | crates/pass-core/src/migration.rs:281-292 | reading inverts base-128 writing for every 64-bit number |
| Protobuf.TokensRoundTrip | crates/pass-core/src/migration.rs:272-330 | any written fields read back as themselves |
| Protobuf.TokensConcat | crates/pass-core/src/migration.rs:272-330 | a run of whole fields followed by the rest reads as both |
| Migration.AccountField | crates/pass-core/src/migration.rs:140-150 | one turn of the account loop reads one field and applies it |
| Migration.PayloadField | crates/pass-core/src/migration.rs:111-124 | one turn of the payload loop reads one field and applies it |
| Migration.ParseAccount | crates/pass-core/src/migration.rs:131-178 | the account parser is the fold over its fields |
| Migration.ParsePayload | crates/pass-core/src/migration.rs:101-129 | the payload parser is the fold over its fields |
| Migration.LastOneWins | crates/pass-core/src/migration.rs:131-151 | an account's parameters are the last ones written, everything else is ignored |
| Migration.PayloadMeaning | crates/pass-core/src/migration.rs:101-129 | a payload is its accounts and notices in record order and its last scalars; it fails iff some record cannot be read |
| Migration.PayloadIs | crates/pass-core/src/migration.rs:101-129 | the parser on bytes is that meaning, or fails where the fields cannot be read |
| Migration.CastsAre | crates/pass-core/src/migration.rs:111-124 | scalars keep their value modulo the word |
| Migration.RecordsLandOnce | crates/pass-core/src/migration.rs:111-120 | every record lands in exactly one of accounts and skipped |
| Migration.UnknownInPayload | crates/pass-core/src/migration.rs:124 | a well-formed unknown field at any boundary changes nothing in a payload |
| Migration.UnknownInAccount | crates/pass-core/src/migration.rs:149 | nor in an account |
| Migration.NamesAreUtf8 | crates/pass-core/src/migration.rs:153-173 | names cut out of valid text stay valid text |
| Migration.NamesAre | crates/pass-core/src/migration.rs:153-173 | account and issuer: the name cut at its colon where the record has no issuer or the same one, otherwise whole |
| Migration.LabelReads | crates/pass-core/src/migration.rs:190-194 | an account's label gives its names back |
| Migration.OutcomeReadsBack | crates/pass-core/src/migration.rs:180-248 | imported iff the secret is not empty and algorithm, digits and type are known |
| Migration.SkipIs | crates/pass-core/src/migration.rs:180-248 | what is not imported is named and its first reason given |
| Migration.AccountReadsBack | crates/pass-core/src/migration.rs:131-248 | an imported line reads back through its own parser to the exported secret, algorithm, digits and counter |
| Migration.ParseMigrationUri | crates/pass-core/src/migration.rs:86-99 | the scanned URI: each error in its order, then the payload |
| Migration.UriCarriesPayload | crates/pass-core/src/migration.rs:86-99 | a payload sent through base64 and percent coding is read as itself, in both spellings of the scheme and among other parameters |
| Migration.UriErrors | crates/pass-core/src/migration.rs:86-99 | not a migration URI iff neither spelling starts it; data missing iff there is no first data parameter or it is empty |
| Backup.EncodeSections | crates/pass-core/src/backup.rs:55-75 | the loop computes the container |
| Backup.NextLine | crates/pass-core/src/backup.rs:124-130 | one line and the position after it |
| Backup.DecodeSections | crates/pass-core/src/backup.rs:79-92 | header and version, each error in its order |
| Backup.HeaderVersion | crates/pass-core/src/backup.rs:79-92 | version 1 is read, later ones are newer, anything else is no backup |
| Backup.DecodeBodies | crates/pass-core/src/backup.rs:93-121 | the section loop computes the decoding |
| Backup.StripSpacesPlain | crates/pass-core/src/backup.rs:60 | a stripped kind cannot break its header line |
| Backup.SectionReads | crates/pass-core/src/backup.rs:59-120 | one written section reads back whatever bytes its body holds |
| Backup.RoundTrip | crates/pass-core/src/backup.rs:55-121 | a container reads back to its cleaned sections, and is refused iff some kind is nothing but white space |
| Backup.RoundTripClean | crates/pass-core/src/backup.rs:55-121 | sections with clean kinds and names read back as themselves |
| Backup.ExtensionRejected | crates/pass-core/src/backup.rs:95-101 | no accepted container can be extended |
| Backup.PrefixRejected | crates/pass-core/src/backup.rs:79-121 | no accepted container can be cut short, and where the cut is decides the error |
| RecoveryCode.SymbolTable | crates/pass-core/src/backup.rs:135 | the alphabet |
| RecoveryCode.CheckValue | crates/pass-core/src/backup.rs:182-192 | the loop from the right computes the check value |
| RecoveryCode.AcceptedSum | crates/pass-core/src/backup.rs:173-192 | the check character closes one congruence over the whole code |
| RecoveryCode.CheckOne | crates/pass-core/src/backup.rs:182-192 | every second digit from the right, the last first, counts double, less 31 on a carry |
| RecoveryCode.CheckChange | crates/pass-core/src/backup.rs:182-192 | and digits add up |
| RecoveryCode.TypoCaught | crates/pass-core/src/backup.rs:182-192 | of two codes that differ in one place at most one is accepted |
| RecoveryCode.SwapCaught | crates/pass-core/src/backup.rs:182-192 | a swap of neighbours goes unnoticed iff they are equal or are 0 and 31 |
| RecoveryCode.SwapUnseen | crates/pass-core/src/backup.rs:182-192 | a concrete accepted code in which swapping a neighbouring Z and 0 is accepted again |
| RecoveryCode.NormalizeRecoveryCode | crates/pass-core/src/backup.rs:153-178 | the character loop computes the normal form, each error in its order |
| RecoveryCode.GenerateRecoveryCode | crates/pass-core/src/backup.rs:141-148 | 29 random values and their check value, formatted |
| RecoveryCode.FormatReads | crates/pass-core/src/backup.rs:194-204 | a shown code reads back to its values |
| RecoveryCode.FormatShape | crates/pass-core/src/backup.rs:194-204 | a code is shown as six groups of five with dashes between |
| RecoveryCode.FormatNormalized | crates/pass-core/src/backup.rs:153-204 | a shown code is a fixed point iff it is valid, otherwise a checksum error |
| RecoveryCode.Idempotent | crates/pass-core/src/backup.rs:153-178 | normalising twice is normalising once |
| RecoveryCode.FreshNormalized | crates/pass-core/src/backup.rs:141-204 | every generated code is accepted as shown |
| RecoveryCode.ShownTypos | crates/pass-core/src/backup.rs:153-204 | on shown codes: every single typo is a checksum error, and every swap of neighbours but of 0 and Z |
| RecoveryCode.SpacingIgnored | crates/pass-core/src/backup.rs:155-158 | white space and dashes may come and go anywhere |
| RecoveryCode.LookAlikes | crates/pass-core/src/backup.rs:159-167 | characters that read as the same value may stand for each other |
| RecoveryCode.CaseIgnored | crates/pass-core/src/backup.rs:159 | a code in lower case is the same code |
| RecoveryCode.PositionTable | crates/pass-core/src/backup.rs:168-171 | a character's value is its position in the alphabet, and others have none |
| Identities.ParseIdentities | crates/pass-core/src/identities.rs:50-69 | the line loop computes the blocks |
| Identities.LineKinds | crates/pass-core/src/identities.rs:50-69 | a comment waits for the next secret, a secret takes what waits, anything else drops it |
| Identities.AppendBlock | crates/pass-core/src/identities.rs:104-119 | a blank line when needed, the comments, the secret |
| Identities.MergeIdentities | crates/pass-core/src/identities.rs:86-128 | the loop with its two sets computes the merge and its counts |
| Identities.AppendReads | crates/pass-core/src/identities.rs:50-119 | an appended block is read after all others, its comments with it |
| Identities.KeyIgnoresCase | crates/pass-core/src/identities.rs:90-103 | two secrets are one key iff they differ in case at most |
| Identities.FreshAre | crates/pass-core/src/identities.rs:94-103 | the added blocks are the first of each key not yet known, and cover every imported key |
| Identities.MergeReads | crates/pass-core/src/identities.rs:86-128 | the merged file starts with the existing text and parses to the existing blocks and then exactly the new ones |
| Identities.MergeAgain | crates/pass-core/src/identities.rs:86-128 | merging the same file again adds nothing and changes no byte |
| Identities.MergeCounts | crates/pass-core/src/identities.rs:86-128 | the counts are the imported blocks already there and those added; the text ends with a newline |
| Generate.ClassesOf | crates/pass-core/src/generate.rs:85-102 | the enabled classes in order |
| Generate.SpecErrors | crates/pass-core/src/generate.rs:73-83 | a length outside 8 to 128 and no enabled class are refused |
| Generate.UniformIndex | crates/pass-core/src/generate.rs:139-149 | the retry loop keeps the first draw below the limit |
| Generate.DrawBlock | crates/pass-core/src/generate.rs:122-125 | one candidate is the image of the next kept draws |
| Generate.GeneratePassword | crates/pass-core/src/generate.rs:116-135 | the outer loop returns the first candidate with every class, or the entropy error |
| Generate.LimitIs | crates/pass-core/src/generate.rs:140 | the limit is the largest positive multiple of n not above the largest draw |
| Generate.KeptConcat | crates/pass-core/src/generate.rs:139-149 | draws are kept or dropped one by one |
| Generate.AlphabetDistinct | crates/pass-core/src/generate.rs:85-109 | whatever classes are enabled, no character is in the alphabet twice |
| Generate.AlphabetIs | crates/pass-core/src/generate.rs:85-109 | the alphabet is exactly the enabled classes |
| Generate.SourcesSize | crates/pass-core/src/generate.rs:116-149 | every password over the alphabet comes from exactly (limit/n)^length vectors of kept draws |
| Generate.RunsAre | crates/pass-core/src/generate.rs:121-134 | the counted vectors are exactly those on which the loop rejects k candidates and returns that password |
| Generate.Uniform | crates/pass-core/src/generate.rs:116-149 | for every number of rejected candidates all acceptable passwords have equally many draw vectors, all others none |
| Generate.GeneratedAcceptable | crates/pass-core/src/generate.rs:116-135 | a result has the asked length, over the alphabet, with every enabled class |
| Generate.AcceptableIs | crates/pass-core/src/generate.rs:116-135 | the passwords counted as acceptable are exactly those asked for: the length, enabled characters only, one at least of each enabled class |
| Generate.GeneratedMeans | crates/pass-core/src/generate.rs:116-135 | a generated password is one that was asked for |
| Generate.YieldsIs | crates/pass-core/src/generate.rs:121-134 | the loop returns what the first covering block gives, or the entropy error |

## Left out

- Rebase.MergedIs: what libgit2 merges where a side renames a file, a file meets a directory or text changed on both sides is not modelled. All three can happen: a moved entry may keep its bytes, names are free, and `.gpg-id`, `.age-recipients` and `.gitattributes` are text. The laws about single paths assume `Plain` trees; the protocol laws assume nothing.
- Rebase.ResolveAllStops: a path of the checked-out trees or a sibling written is all that is taken to be in the working tree; ignored files and empty directories are not modelled, nor is any other I/O error. Of a conflict the checkout leaves the remote side, or the local one where that is deleted.
- Rebase.RebaseKeepBoth: nothing is said of a changed path whose sibling local commits change too, or that is the sibling of another changed path, beyond Rebase.PickIs and Rebase.KeptTwiceIff for each replayed commit.
- Rebase.RemoteStays: a remote blob equal to one a local commit replaced counts as seen by it, so its replacement is no loss.
- Sync.GitStore.RebaseOnto: a path that cannot be staged ends the sync with an error; the repository is then in the middle of a rebase on a detached head, and what later calls do to it is not modelled.
- Sync.StoppedSync: speaks of the branch ref and the tracking ref; HEAD itself is then detached.
- Network.LocalGood: in a run a device goes on after a sync that stopped as if it had not been called, though in the program its later syncs and pushes would meet the unfinished rebase; the laws that need a sync to have succeeded say so.
- Sync.GitStore.Init: `init` on an existing repository is left out.
- Sync.GitStore.CommitPaths: staging a directory, which is an error in libgit2, is not modelled; neither is `commit_all`.
- KnownHosts.RemoveReads: where one line hides a pin and another gains one, the whole list is not compared; KnownHosts.LineEdit still decides each line.
- KnownHosts.RunReads: stated for files whose inspected lines hold no name that is empty or starts with `#` or `@`, and for runs that pin well-formed names and keys; on other files each removal is judged by KnownHosts.RemoveReads.
- KnownHosts.RemoveLines: blank lines are dropped and a CRLF ending becomes LF, as in the source, so untouched lines of a foreign file are kept up to that.
- HotpAdvance.AdvanceRun: needs exactly one counter parameter; what happens otherwise is stated by HotpAdvance.AdvancesIffOneCounter.
- EntryLaws.SetFieldFields: for a key without colon, newline or trailing space that is not `otpauth`, and a value without newline.
- StoreSpec.RunKeepsSync: for pass, assumes that copies and moves start from names outside `.git` and that a copy has another name; the exact condition is stated for each operation by StoreSpec.StepSyncIff.
- StoreSpec.ReadablePartition: within one call the engine picks one salt for one plaintext and recipient list; real engines may pick several.
- Store.Store.Transfer: names are relative and normalised; spellings such as `./a` or `a//b`, absolute names, symbolic links, names that are not UTF-8 and races on temporary files are not modelled.
- Identities.MergeIdentities: the counters are unbounded instead of 32 bits wide.
- Generate.Uniform: the operating system's entropy is a given sequence of 32-bit draws that may run out; that draws are independent and uniform is the system's promise.
- `pass-ffi`: forwarding without logic.
- The crypto engines, HMAC and SHA, key generation and signing, SSH key import: foreign cryptography, given as functions.
- `passkey.rs` and the WebAuthn and CBOR encodings: a passkey value is an opaque text that decodes to a credential id or not.
- Cloning options, credentials, host-key callbacks and TLS set-up in `git.rs`: library plumbing.
- `render_ls`, `tree`, the `hidden` flag of listed entries, commit messages, `suggest_name`, URL schemes, `public_key_hint`, `is_age_encrypted`, `Totp::new` and `Hotp::new`: presentation or easy members.
- The encryption around a backup container: done by the age engines outside this crate.

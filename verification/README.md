# SiteBrush, modelled and verified

SiteBrush edits a static site in place and keeps revisions, redirects, a frozen
published copy and backups beside it. This project models the protocols under its
request handlers and proves what they promise. `dafny verify dfyconfig.toml` checks
everything.

The file system is one map from paths (segment lists) to nodes. Every call on it, and
every database call, may fail; ghost counters named `faults` record how often, so that a
contract can say both what a failure leaves behind and that without one the operation
succeeds. Objects the program updates in place are classes (`Disk`, `KeyedMutex`,
`Store`, `Service`, `Editor`, `Freezer`, `Table`, `Shared`); concurrency is a state
machine over the stretches of code that run without interruption.

| file | what it covers |
|---|---|
| `file_paths.dfy`, `slash_names.dfy`, `file_tree.dfy` | paths, `path.Clean`, the tree and the calls on it |
| `archive_names.dfy`, `backup_restore.dfy` | names of archive entries, restore as a transaction with rollback |
| `backup_walk.dfy`, `backup_create.dfy`, `refused_archives.dfy` | taking a backup, what a restore of it gives back, archives no restore can write |
| `keyed_mutex.dfy`, `keyed_mutex_class.dfy` | reference-counted locks per key |
| `revisions.dfy`, `revision_directory.dfy`, `page_editor.dfy`, `post_revisions.dfy` | numbering revisions, on disk and in the database |
| `redirect_store.dfy`, `page_renames.dfy`, `page_properties.dfy` | redirects kept twice, renames, new pages |
| `old_addresses.dfy`, `foresight.dfy`, `node_moves.dfy`, `site_runs.dfy` | old addresses that keep working, and exactly when |
| `copy_directory.dfy`, `publish_snapshot.dfy`, `frozen_site.dfy` | the published copy and freezing |
| `request_paths.dfy` | request path to file and back |
| `pbkdf2.dfy`, `password_hash.dfy`, `auth_store.dfy` | passwords, the first admin, recovery tokens |
| `save_queue.dfy`, `uploads.dfy` | the database save worker, uploaded media |

Some promises hold only under a condition, and the model says which:

- Old addresses keep reaching a file throughout a run if and only if no step of it makes
  a directory in the place of an address that has a redirect and no file, other than for
  that address's own index file (`OldAddresses.OldPagesWorkIff`). Renaming `/a` to `/b`
  and then creating `/a/x` breaks `/a`: the directory hides the redirect
  (`OldAddresses.CreatingBelowAnOldAddressBreaks`).
- Renaming a page that does not exist reports success and saves a redirect; that is
  harmless exactly when the new address already leads to a file without passing the old
  one (`OldAddresses.MissingSourceIsHarmlessIff`).
- Renaming a directory keeps the addresses of the pages below it if and only if each has
  a redirect of its own from which, as the site before the rename foretells, a file will
  be reached (`NodeMoves.DirectoryRenameWorksIff`).
- For everything together, failures and compensations included: every address that ever
  led to a page goes on doing so if and only if no event harms one it concerns, which the
  site before the event tells (`SiteRuns.EverWorkedWorksOnIff`); only old addresses whose
  page is away, and what a rename takes with it, can be harmed.
- Restoring an archive in which one target lies below another (`web/x` and `web/x/y`)
  passes every check (`RefusedArchives.PrefixClash`), then fails to write and fails to
  roll back (`BackupRestore.RestoreBackup`: in a run without faults the outcome is
  `RollbackFailed` exactly then). `createBackup` writes no such archive.
- A web root inside a directory that a backup walks below the archive root is archived
  twice, and no restore takes that archive (`RefusedArchives.OverlapIsRefused`).
- A file's canonical URI leads back to the file exactly when it holds no percent sign and
  the index file is configured by name (`RequestPaths.CanonicalUriLeadsBackIff`);
  `/%25` and the default index file are requests for which it does not.
- Two page addresses may share a revision directory, so revisions are numbered per
  directory (`RevisionDirectory.DirectoriesAreShared`, `UnderscoresAtTheEndsShare`);
  addresses without underscores never share one (`OrdinaryPagesDoNotShare`), and the
  revisions of a page tell its story in every run in which no other page uses its
  directory.
- `updateProperties` that fails removes the metadata of the new address even if there was
  some before, unless the rename back reported an error: then the new metadata stays
  although the page may be back at the old address (`PageProperties.Service.UpdateProperties`).
- A failing publish can put a leftover `published.old` in place of a missing published
  tree; this takes two faults (`PublishSnapshot.Publish`, outcome `StaleShown`).
- If the freeze flag cannot be read, an anonymous visitor of a frozen site sees the
  working tree (`FrozenSite.UnreadFlagShowsTheEdit`). A page whose own path lies where
  media is published may be hidden by that media (`FrozenSite.FrozenPageIsItselfIff`).
- A queued post is saved twice exactly as often as a commit takes effect while reporting
  an error (`SaveQueue.NoTaskIsLost`).

## Model

| member | source | states |
|---|---|---|
| `FilePaths.InsideRootIsPrefix` | pkg/webserver/functions.go:1149-1155 | The textual test on the relative path accepts exactly the paths that extend the root segment by segment. |
| `SlashNames.RootedCleanIsClean` | pkg/webserver/functions.go:1118-1119 | Cleaning a rooted path leaves only plain segments: none empty, `.` or `..`. |
| `FileTree.Disk.MkdirAll` | pkg/webserver/functions.go:1553-1555 | Only missing directories on the way appear, some of them even if it fails; it succeeds without faults when nothing else stands on the way. |
| `FileTree.Disk.AtomicWriteFile` | pkg/webserver/functions.go:540-576 | The target is as before or holds the new file, nothing else changes but missing directories above it; an error without faults leaves it as before; a failing directory sync may report an error with the new content in place. |
| `FileTree.Disk.Rename` | pkg/webserver/functions.go:1556-1558 | The node and what hangs below it move as a whole, or nothing changes; nothing is put over a directory. |
| `FileTree.MovedIsClosed` | pkg/webserver/functions.go:1556-1558 | After a move every node still hangs below a directory. |
| `ArchiveNames.ValidEntryNameMeaning` | pkg/webserver/functions.go:2908-2923 | The cleaning test accepts exactly relative names of plain segments, without backslash or NUL, with at most one trailing slash. |
| `ArchiveNames.SafeJoinStaysInside` | pkg/webserver/functions.go:1344-1358 | A joined path that is accepted is clean and extends its root. |
| `ArchiveNames.TargetIsUnderItsRoot` | pkg/webserver/functions.go:3013-3055 | Whenever an archive name has a target, the root function has an answer for it too, and that root contains the target. |
| `ArchiveNames.ArchiveNameRoundTrip` | pkg/webserver/functions.go:2542-2631 | The name a backup gives a file is accepted by a restore and leads back to exactly that file, below the root it came from. |
| `ArchiveNames.ArchiveNamesAreInjective` | pkg/webserver/functions.go:2542-2631 | No two backed-up files share a name. |
| `BackupRestore.RejectSymlinkComponents` | pkg/webserver/functions.go:2958-2992 | Succeeds only if no symbolic link or file stands between root and target, and always then if nothing breaks. |
| `BackupRestore.ValidateRestoreTargetPath` | pkg/webserver/functions.go:2925-2956 | Accepts exactly the targets reachable through directories below their root, when nothing breaks. |
| `BackupRestore.MissingParentDirs` | pkg/webserver/functions.go:2809-2841 | The loop collects the missing ancestors, deepest first. |
| `BackupRestore.MissingAncestorsExact` | pkg/webserver/functions.go:2809-2841 | That list holds a directory if and only if it is above the target and missing. |
| `BackupRestore.Capture` | pkg/webserver/functions.go:2754-2780 | A rollback entry records content, mode and missing ancestors of its target as they are, and refuses anything but a regular file. |
| `BackupRestore.RestoreZipFile` | pkg/webserver/functions.go:3057-3087 | Writes at most its own target and missing directories above it. |
| `BackupRestore.WriteStep` | pkg/webserver/functions.go:2730-2744 | Writing one more target, complete or not, stays within the targets and the directories above them. |
| `BackupRestore.BlockedMeansClash` | pkg/webserver/functions.go:2730-2744 | Without a fault only a target above or below an earlier one can stop a write. |
| `BackupRestore.RemoveCreatedDirs` | pkg/webserver/functions.go:2782-2807 | Removing an entry's directories keeps exactly those that earlier entries still need. |
| `BackupRestore.UndoEntry` | pkg/webserver/functions.go:2782-2807 | Undoing one entry takes the tree back to what the entries before it allow. |
| `BackupRestore.RollbackRestore` | pkg/webserver/functions.go:2782-2807 | If the reverse-order rollback reports no error, the tree is exactly the one before the restore; with prefix-free targets it can only fail if a call fails. |
| `BackupRestore.ValidateRestoreArchive` | pkg/webserver/functions.go:2843-2870 | Accepts exactly the archives all of whose entries are acceptable, when nothing breaks. |
| `BackupRestore.CollectRestoreTargets` | pkg/webserver/functions.go:2872-2906 | The loop with its `seen` map yields the targets in order and refuses a repeated one. |
| `BackupRestore.RestoreAll` | pkg/webserver/functions.go:2730-2744 | On success every target holds its archived content; on failure without a fault the stopping target clashes with an earlier one. |
| `BackupRestore.RestoreBackup` | pkg/webserver/functions.go:2679-2752 | A rejected or rolled-back restore leaves the whole tree as it was, for any targets; a failed rollback of prefix-free targets takes a second fault; without faults the outcome is decided exactly by the archive and the tree. |
| `RefusedArchives.ClashIsAdmissible` | pkg/webserver/functions.go:2843-2906 | Two missing files of which one lies above the other pass every check of a restore together. |
| `RefusedArchives.PrefixClash` | pkg/webserver/functions.go:2843-2906 | The smallest such archive: `web/x` and `web/x/y` against an empty web root. |
| `RefusedArchives.OverlapIsRefused` | pkg/webserver/functions.go:2394-2425 | With a web root inside a walked directory a file goes in under two names with one target, which a restore refuses. |
| `BackupWalk.WalkFiles` | pkg/webserver/functions.go:2602-2631 | The walk finds each regular file at or below its root exactly once; without faults it fails only if the root is missing. |
| `BackupWalk.RegionMeetsItsFiles` | pkg/webserver/functions.go:2602-2631 | Each file a walk of one directory meets gets the name that leads back to it, and belongs to no other walk. |
| `BackupWalk.AddSafeArchiveMetadata` | pkg/webserver/functions.go:2542-2582 | State files, metadata, templates and the media of every host complete the archive to exactly the files to be backed up; without faults it succeeds exactly if neither state file is anything but a file and the hosts' directory is a directory or missing. |
| `BackupCreate.ReserveUniqueBackupPath` | pkg/webserver/functions.go:2520-2540 | Takes the first free one of the drawn names and fails exactly when all are taken or a call breaks. |
| `BackupCreate.CreateBackup` | pkg/webserver/functions.go:2394-2503 | Success stores an archive with its manifest and every file to be backed up exactly once, and its record beside it; nothing else in the tree changes, even on failure; without faults it succeeds exactly on trees that are `Ready`: a web root that exists and does not hold the backups, no directory in the place of a state file, a free name. |
| `BackupCreate.BackupTargetsArePrefixFree` | pkg/webserver/functions.go:2394-2503 | Targets of a backup are distinct and none lies above another. |
| `BackupCreate.RestoreGivesBackBackup` | pkg/webserver/functions.go:2679-2752 | Backup, any edits, successful restore: every backed-up file has its backed-up content again, every other node is untouched, only directories are new. |
| `KeyedMutexProtocol.NextKeepsInv` | pkg/webserver/functions.go:146-167 | Every step of every goroutine keeps the counts exact, the map sound and the holders unique. |
| `KeyedMutexProtocol.DeletesOnlyUnreferenced` | pkg/webserver/functions.go:159-164 | Deleting by key deletes the goroutine's own lock, which nobody points to any more. |
| `KeyedMutexProtocol.KeyedMutexIsSafe` | pkg/webserver/functions.go:146-167 | In every interleaving: one holder per key, exact reference counts, one live lock per key, an empty map once all goroutines are idle. |
| `KeyedMutexProtocol.SomeoneCanStep` | pkg/webserver/functions.go:146-167 | While some goroutine is in the protocol, some goroutine can take a step. |
| `KeyedMutexClass.KeyedMutex.Register` | pkg/webserver/functions.go:147-154 | The first section under the map's mutex performs the protocol's registering step. |
| `KeyedMutexClass.KeyedMutex.LockMutex` | pkg/webserver/functions.go:156-156 | Acquiring the per-key mutex performs the protocol's locking step. |
| `KeyedMutexClass.KeyedMutex.UnlockMutex` | pkg/webserver/functions.go:157-158 | Its release performs the unlocking step. |
| `KeyedMutexClass.KeyedMutex.Unregister` | pkg/database/functions.go:45-54 | Counting out and forgetting the last lock performs the deregistering step. |
| `Revisions.NextRevision` | pkg/webserver/functions.go:2019-2031 | The loop yields one more than the largest revision, hence above every record. |
| `Revisions.FindRevision` | pkg/webserver/functions.go:2143-2154 | Finds the record of that number if there is one. |
| `Revisions.StepKeepsInv` | pkg/webserver/functions.go:441-486 | Every step of every running save, failing or not, keeps what each save knows about its directory and page true. |
| `Revisions.RevisionsAreNumbered` | pkg/webserver/functions.go:2007-2067 | From any sound site, under any interleaving and any failures, each directory's records are numbered exactly 1..n, whatever function folds addresses to directories. |
| `Revisions.RevisionsTellTheStory` | pkg/webserver/functions.go:441-486 | In every run in which no save of another page uses the page's directory: the live content is the before or after content of the newest record, each record starts from its predecessor's before or after content, and every content ever live survives in a record. |
| `RevisionDirectory.DirectoriesAreShared` | pkg/webserver/functions.go:2007-2017 | Addresses that differ only in slashes against underscores share a directory, and so a lock. |
| `RevisionDirectory.UnderscoresAtTheEndsShare` | pkg/webserver/functions.go:2007-2013 | So do an address and the same one with an underscore before or after its name. |
| `RevisionDirectory.OrdinaryPagesDoNotShare` | pkg/webserver/functions.go:2007-2013 | Clean addresses without underscores share a directory only if they are equal. |
| `RevisionDirectory.OrdinaryPagesTellTheirStories` | pkg/webserver/functions.go:441-486 | With the program's own directories: while only such pages are saved, every one's revisions tell its story. |
| `RevisionDirectory.TwoPagesAtOnce` | pkg/webserver/functions.go:441-486 | A run in which two such pages are being saved at once. |
| `RevisionDirectory.DirectoryNameHasNoSlash` | pkg/webserver/functions.go:2007-2013 | The directory is a direct child of the one for revisions, whatever the address. |
| `PageEditor.Editor.WriteRevision` | pkg/webserver/functions.go:2033-2067 | The record is added or not, a failure leaves at most one empty reservation more. |
| `PageEditor.Editor.SaveEditedFile` | pkg/webserver/functions.go:441-486 | Success records the old and new content under the next number and publishes; the page never changes without its record; the revisions keep telling the page's story; without faults it fails exactly when an empty reservation is left over. |
| `PageEditor.OutcomeIsProtocolRun` | pkg/webserver/functions.go:441-486 | Whatever a save does to its directory and page, the steps of a goroutine in the interleaved protocol can do, from any site. |
| `PageEditor.Editor.RestoreRevision` | pkg/webserver/functions.go:628-656 | Restoring a revision makes its after content live and records that; a number that does not exist changes nothing. |
| `RedirectStore.UpsertFind` | pkg/webserver/functions.go:1627-1636 | After replacing or appending, a lookup sees the new entry for its source and the old answers for all others. |
| `RedirectStore.ReplaceNewest` | pkg/database/functions.go:603-663 | After delete and insert, the newest active row of the source is the new one, and other sources keep theirs. |
| `RedirectStore.Store.UpsertInPlace` | pkg/webserver/functions.go:1627-1638 | The loop replaces the first entry of the source in place, or appends. |
| `RedirectStore.Store.SaveRedirect` | pkg/webserver/functions.go:1610-1653 | Succeeds exactly when nothing breaks; then list and table hold the new entry. Otherwise the table is as before unless the transaction committed and reported an error, and the list is as before unless a write took effect and reported one or its undoing failed too. |
| `RedirectStore.SaveStaysInStep` | pkg/webserver/functions.go:1610-1653 | Whatever one save leaves behind, the stores still answer for every source that no failed save has touched. |
| `RedirectStore.Store.StoresAgree` | pkg/webserver/functions.go:1655-1679 | For every source no failed save has touched, list and table give the same answer, that of its last successful save, with one entry per source. |
| `RedirectStore.LookupsAgreeInEveryRun` | pkg/webserver/functions.go:1600-1679 | In any run of saves, some failing and some of those leaving list and table apart, the list holds one entry per source, and every lookup of a source that was not torn gives its last successful save, from either store. |
| `RedirectStore.LookupsTellTheHistory` | pkg/webserver/functions.go:1600-1679 | From empty stores a lookup gives what the sequence of calls says, the last successful save of its source, unless a later failed one tore it. |
| `RedirectStore.NothingTears` | pkg/webserver/functions.go:1600-1679 | If failed saves change nothing, no source is ever torn. |
| `PageRenames.MoveThereAndBack` | pkg/webserver/functions.go:1570-1573 | Renaming back undoes a rename, for the whole tree. |
| `PageRenames.SyncRename` | pkg/webserver/functions.go:1559-1583 | A rename whose directory syncs fail is taken back; it stays only after two faults. |
| `PageRenames.RenameStaticFile` | pkg/webserver/functions.go:1528-1568 | The file moves and only directories above the new place are new; or it stays; a missing source or an equal name changes nothing. |
| `OldAddresses.OldAddressesWork` | pkg/webserver/functions.go:1751-1780 | Following redirects from any redirected address reaches a file in at most as many hops as there are redirects, although they may form cycles. |
| `OldAddresses.HarmlessKeepsWorking` | pkg/webserver/functions.go:1493-1523 | Renames, page writes and failed renames that make no directory in the place of an old address keep every redirect leading to a file. |
| `OldAddresses.HarmBreaks` | pkg/webserver/functions.go:540-576 | Any other one leaves an old address at a directory without index file, so that it no longer reaches a file. |
| `OldAddresses.OldPagesKeepWorking` | pkg/webserver/functions.go:1751-1780 | Up to the first harmful step an address that was ever a page, or ever redirected, reaches a file. |
| `OldAddresses.OldPagesWorkIff` | pkg/webserver/functions.go:1751-1780 | In every run from a site whose redirects work: every such address reaches a file throughout if and only if no step is harmful. |
| `OldAddresses.CreatingBelowAnOldAddressBreaks` | pkg/webserver/functions.go:540-576 | The smallest run in which one stops working. |
| `OldAddresses.MissingSourceIsHarmlessIff` | pkg/webserver/functions.go:1548-1549 | Saving a redirect for a page that was not there keeps all redirects working if and only if the new address reaches a file without passing the old one. |
| `OldAddresses.MissingSourceBreaks` | pkg/webserver/functions.go:1548-1549 | The smallest site in which it does harm. |
| `OldAddresses.WriteIsStep` | pkg/webserver/functions.go:540-576 | Whatever an atomic write of a page leaves behind is a step of these runs. |
| `OldAddresses.PutKeepsWorkingIff` | pkg/webserver/functions.go:540-576 | A page put in place keeps every redirect working if and only if it makes no directory in the place of an old address, other than for its index file. |
| `Foresight.EveryAddressWorksOnIff` | pkg/webserver/functions.go:1751-1780 | If only some addresses change their answer, every working address of the site works on exactly if those do. |
| `NodeMoves.MoveForecastIsRight` | pkg/webserver/functions.go:1528-1568 | What every address of the site will answer after a page or directory moved, told from the site before. |
| `NodeMoves.AddressBelowWorksIff` | pkg/webserver/functions.go:1528-1568 | An address below a renamed directory works on if and only if it has a redirect of its own that will reach a file; without one it is lost. |
| `NodeMoves.DirectoryRenameWorksIff` | pkg/webserver/functions.go:1528-1568 | All pages below a renamed directory keep their addresses if and only if each has such a redirect, read off the site before the rename. |
| `NodeMoves.DirectoryRenameBreaks` | pkg/webserver/functions.go:1528-1568 | The smallest site in which it does harm. |
| `SiteRuns.ForecastIsRight` | pkg/webserver/functions.go:1751-1780 | What every address will answer after any event, told from the site before. |
| `SiteRuns.WorksOnUnlessHarmed` | pkg/webserver/functions.go:1493-1523 | An event keeps all working addresses of the site working if and only if it harms none of those it concerns. |
| `SiteRuns.OnlyTheseCanBeHarmed` | pkg/webserver/functions.go:1493-1523 | Only old addresses whose page is away, and what a move takes with it, can be harmed. |
| `SiteRuns.EverWorkedWorksOnIff` | pkg/webserver/functions.go:1751-1780 | In every run of renames of pages, directories and missing pages, new and edited pages and failures of all of them, from any site: every address that ever led to a page goes on doing so if and only if no event harms one. |
| `PageProperties.LinksAfterSave` | pkg/webserver/functions.go:1655-1679 | A saved redirect changes what a visitor meets at its old address, and nowhere else, in either store. |
| `PageProperties.LinksAfterFailure` | pkg/webserver/functions.go:1643-1650 | A save that failed but left its entry in the list or the table changes at most that address. |
| `PageProperties.RenameBackIsClean` | pkg/webserver/functions.go:1511-1516 | After the compensating rename only directories above the new address remain of the first one. |
| `PageProperties.Service.MovePage` | pkg/webserver/functions.go:1493-1523 | Page and redirect change together; the page is left without its redirect only after two faults; list and table are as before unless a commit reported an error or two store calls failed; the metadata is kept only after a store fault and a fault of the rename back. |
| `PageProperties.Service.UpdateProperties` | pkg/webserver/functions.go:1457-1526 | An error without a lost page (which takes a second fault) leaves the pages as before but for empty directories; the metadata is then without the new address, unless the rename back reported an error, which leaves the new metadata in place; every outcome is an event of the site's runs, and a step of the old-address runs if the source is a page that is not lost; without faults a free new address succeeds. |
| `PageProperties.Service.CreateSubpage` | pkg/webserver/functions.go:3157-3197 | Nothing there is overwritten; a page that is made keeps all old addresses working exactly if it makes no directory in the place of one; without faults it succeeds exactly at a missing address that only directories lead to. |
| `CopyDirectories.CopyDirectory` | pkg/webserver/functions.go:2283-2325 | Every regular file below the source has its content at its counterpart, every directory has a counterpart, every other file is as before; succeeds without faults when nothing at the destination is in the way. |
| `PublishSnapshot.CopyMedia` | pkg/webserver/functions.go:2327-2352 | The media of every host lies under the snapshot's media directory, over what was there. |
| `PublishSnapshot.SwapRoots` | pkg/webserver/functions.go:2261-2280 | The published tree is the new copy as a whole, or as before, or whole under the stale name, or a leftover of that name; the last two take two faults. |
| `PublishSnapshot.Publish` | pkg/webserver/functions.go:2231-2281 | Whatever step fails, the published tree is the complete old or the complete new one, with every page, directory and media file, unless the compensating rename failed or a leftover stood in; nothing outside the three directories changes; without faults it succeeds. |
| `FrozenSite.Freezer.SetFreeze` | pkg/webserver/functions.go:792-820 | The flag changes only after a publish that swapped; every outcome is a step of the site's runs, except after two faults. |
| `FrozenSite.EditKeepsPublished` | pkg/webserver/functions.go:2191-2207 | Edits, uploads, renames and removals outside the published tree leave it as it is, node by node. |
| `FrozenSite.AnonymousSeesTheSnapshot` | pkg/webserver/functions.go:1751-1760 | In every run, while frozen, an anonymous visitor gets for every page and media path what the working tree held at the last swap. |
| `FrozenSite.FrozenPageIsItselfIff` | pkg/webserver/functions.go:2327-2352 | Remark: in every run, a frozen page shows its own content from the last swap if and only if no differing media is published at its path. |
| `FrozenSite.ViewsMeetAtSwap` | pkg/webserver/functions.go:806-814 | Right after a swap, frozen or not, anonymous visitors and operators see the same pages as before it. |
| `FrozenSite.UnreadFlagShowsTheEdit` | pkg/webserver/functions.go:2195-2201 | Remark: if the flag cannot be read, an edit of a frozen site shows to anonymous visitors. |
| `RequestPaths.UnescapeShortens` | pkg/webserver/functions.go:1099-1102 | Decoding a path that holds a percent sign makes it shorter and keeps slashes at its ends. |
| `RequestPaths.ResolvesTo` | pkg/webserver/functions.go:1094-1147 | A decoded path is refused exactly for a backslash, a double slash in front, a `..` or a colon; else it leads to the root followed by its cleaned segments and, for directories, the index file. |
| `RequestPaths.CanonicalOf` | pkg/webserver/functions.go:1060-1092 | The canonical URI of a file spells out its segments below the root, less the index file. |
| `RequestPaths.CanonicalUriLeadsBackIff` | pkg/webserver/functions.go:1060-1147 | Every accepted request stays below the root; the canonical URI of what it reaches leads back if and only if it holds no percent sign and the index file is configured by name. |
| `RequestPaths.CanonicalUriIsAFixedPoint` | pkg/webserver/functions.go:1060-1147 | With a configured index file and no percent sign in the decoded request it always leads back. |
| `RequestPaths.PercentFileIsMissed` | pkg/webserver/functions.go:1060-1147 | The accepted request `/%25` reaches a file whose canonical URI `/%` is refused. |
| `RequestPaths.DefaultIndexIsMissed` | pkg/webserver/functions.go:1060-1147 | With no index file configured the default one is reached by name, but its canonical URI leads to the root directory. |
| `Pbkdf2.XorInto` | pkg/webserver/auth_store.go:432-434 | The innermost loop replaces each octet by its exclusive or with the other's. |
| `Pbkdf2.Derive` | pkg/webserver/auth_store.go:415-439 | The nested in-place loops compute exactly keyLen octets, each the one section 5.2 of RFC 8018 defines, for every password, salt and iteration count. |
| `Pbkdf2.ShorterKeyIsPrefix` | pkg/webserver/auth_store.go:415-439 | There is one derived key of each length, and shorter ones are prefixes of longer ones. |
| `Pbkdf2.BlockIndexIsExact` | pkg/webserver/auth_store.go:422-423 | Up to the key length the RFC allows, the 32-bit conversion does not wrap. |
| `PasswordHash.AtoiDecimal` | pkg/webserver/auth_store.go:399-405 | Parsing undoes printing of every number that fits 64 bits, and refuses larger ones. |
| `PasswordHash.Decode64Encode64` | pkg/webserver/auth_store.go:407-413 | Decoding undoes the unpadded URL encoding of section 5 of RFC 4648. |
| `PasswordHash.ParsePrint` | pkg/webserver/auth_store.go:356-390 | Splitting and parsing a printed hash recovers iterations, salt and key, or refuses it, exactly within the accepted limits. |
| `PasswordHash.HashPassword` | pkg/webserver/auth_store.go:356-369 | The stored string accepts its password, and another one exactly if it derives the same key. |
| `PasswordHash.VerifyPassword` | pkg/webserver/auth_store.go:371-397 | Succeeds exactly when the derived key equals the stored one; fails exactly on strings that do not parse. |
| `AuthStore.Store.CreateFirstAdmin` | pkg/webserver/auth_store.go:244-298 | Refuses while an active user exists; without faults succeeds exactly for a valid address, a long enough password and no active user; then exactly that user exists, owns the superuser group as its only member, and can log in. |
| `AuthStore.NormalOnce` | pkg/webserver/auth_store.go:108-110 | A normalised address is its own normal form, so the stored one is found. |
| `AuthStore.Store.ChangePassword` | pkg/webserver/auth_store.go:165-192 | Only the first active user of that id who knew the old password gets the new one, and nothing else changes. |
| `AuthStore.Store.Authenticate` | pkg/webserver/auth_store.go:138-163 | Admits exactly the first active user of the address with the right password, when nothing breaks. |
| `AuthStore.Store.CreateRecoveryToken` | pkg/webserver/auth_store.go:194-218 | Appends one unused token, and succeeds exactly when nothing breaks. |
| `AuthStore.Store.VerifyRecoveryToken` | pkg/webserver/auth_store.go:220-242 | Accepts an unused, unexpired token of that user and hash, and marks it used; without faults exactly if there is one. |
| `AuthStore.FirstAdminIsOnlyOne` | pkg/webserver/auth_store.go:244-298 | In every run from an empty store a first admin is created at most once, and exactly that active user persists, with the superuser group. |
| `AuthStore.TokenAcceptedOnce` | pkg/webserver/auth_store.go:220-242 | In every run each stored token is accepted at most once, and never after it expired. |
| `AuthStore.UsedMarksStay` | pkg/webserver/auth_store.go:230-237 | Tokens stay in place and a used mark is never cleared or changed. |
| `PostRevisions.LockKeyIsInjective` | pkg/database/functions.go:670-670 | Pages of domains without NUL never share a lock. |
| `PostRevisions.NulInDomainShares` | pkg/database/functions.go:670-670 | With a NUL in the domain two pages may share one. |
| `PostRevisions.Table.SavePost` | pkg/database/functions.go:665-738 | Adds at most one row, one above the page's largest revision; succeeds exactly when nothing breaks. |
| `PostRevisions.PostRevisionsIncrease` | pkg/database/functions.go:665-738 | Under any interleaving and failures every new row of a page is above all its earlier rows, and a page numbered 1..n stays so. |
| `PostRevisions.OutcomeIsProtocolRun` | pkg/database/functions.go:665-738 | Whatever one save does to the table, two steps of a goroutine in the interleaved protocol do. |
| `SaveQueue.Shared.ProcessTask` | pkg/database/database.go:126-153 | A failed task goes back to the channel, or to a waiting goroutine if that is full; only a fatal error ends the worker. |
| `SaveQueue.ProcessingIsTwoSteps` | pkg/database/database.go:126-153 | Processing a task is a saving and, after a failure, a requeueing step of the runs. |
| `SaveQueue.NoTaskIsLost` | pkg/database/database.go:24-153 | In every run, other steps between a failed save and its requeueing included, each submitted task is in exactly one place, workers never exceed the limit, and double saves are exactly the commits that reported an error. |
| `SaveQueue.SavedAsSubmitted` | pkg/database/database.go:24-153 | If saves commit exactly when they report success, no task is saved more often than submitted, and once nothing is under way each is saved as often. |
| `Uploads.Cleanup` | pkg/webserver/upload.go:390-397 | Removes only what was not there before, and without faults all of it. |
| `Uploads.SaveUploadedMedia` | pkg/webserver/upload.go:156-233 | Every media file stays named by the hash of its content, unless the new content collides with another; a failed upload without faults leaves the media as it was; nothing but its own file and sidecar changes. |
| `Uploads.UploadsArePossible` | pkg/webserver/upload.go:156-233 | A hash without such a collision and a media directory that holds another file exist. |
| `Uploads.Shorten` | pkg/webserver/upload.go:359-370 | A long name keeps its start and a short extension. |
| `Uploads.SanitizeFileName` | pkg/webserver/upload.go:341-372 | The result is a nonempty safe file name of at most 128 characters, and a name that already is one stays. |
| `Uploads.SafeNameIsPlain` | pkg/webserver/upload.go:341-372 | Such a name is a plain path segment: no slash, no climbing. |

## Left out

- HTTP, cookies, sessions, HTML templates, status codes, the login and profile pages, the health probe and the GUI: wiring.
- `fetchGrabHTML`, DNS and address range checks, `sanitizeImportedHTML`, the template markers: the first is a network client, the meaning of the others sits in the regular expression library.
- SQL drivers, table creation, `pkg/migration`: the database is a table whose transactions commit or do nothing (or commit and report an error).
- Zip bytes, JSON, image decoding, MIME sniffing, the internals of SHA-256 and HMAC: abstract. A JSON file that cannot be parsed counts as one that cannot be read.
- `canonicalHost` and its host-name syntax.
- Symbolic links are nodes that block a path; nothing follows one, so a web root that is itself a link, and the `EvalSymlinks` checks, are not modelled. Files that are neither regular, directory nor link do not exist.
- Temporary files of `atomicWriteFile` are not nodes; their removal is assumed to work. Power loss is not modelled, only errors that calls return.
- File modes are not carried through an archive (the zip writer does not record them): every restored file gets the mode the archive format reports. The process umask is not modelled.
- `FileTree.Disk.Rename`: does not model hard links or moves between file systems.
- `BackupCreate.CreateBackup`: speaks of the archived files while no file is both below the web root and in a walked directory of the archive root (`RootsApart`); directories list their entries in any order; the place in the archive of a regular file that stands where a directory is walked is left open; state files that are symbolic links are not followed but refused; the row in the database is a call that may fail. The archive format is any function of the entries.
- `BackupCreate.RestoreGivesBackBackup`: speaks of names that hold neither backslash nor NUL, since the restore refuses backslashes.
- The history of restores that `restoreBackup` keeps in the database.
- `Revisions.RevisionsTellTheStory`: speaks of runs in which no other page uses the page's directory; a shared one interleaves the stories of its pages. The warning written into a record when the database save failed does not change the fields modelled.
- `PageEditor.Editor.SaveEditedFile`: is one request between lock and unlock; interleavings are the subject of `Revisions`.
- `OldAddresses.OldPagesWorkIff`: pages are named by their file path; the addresses are those that `RequestPaths` maps to files one to one, outside the reserved paths `/b`, `/f`, `/p`, `/d`, and that `validInternalRedirectTarget` accepts. Of what net/http's file server answers for a directory only the redirect to its index file is modelled: a directory listing is not a page, a directory in the place of an index file is none either although a nested index file in it would be served, and the redirect of an address that spells out `/index.html` is left out. A redirect lookup whose database query fails answers with an error and is not a step. Its runs hold renames of files, page writes and failed renames; all other events are in `SiteRuns`. SiteBrush deletes no pages.
- `PageProperties.Service.CreateSubpage`: from the check that the file is missing; deriving its path and title is left out.
- `PageProperties.Service.UpdateProperties`: metadata is a map written and removed as a whole; the form parsing before it is left out.
- `CopyDirectories.CopyDirectory`: does not state file modes, which the umask decides.
- `PublishSnapshot.Publish`: states the files and directories of the new copy, not their modes; the temporary name is free and not the web root's.
- `FrozenSite.UnreadFlagShowsTheEdit`: whether the flag can be read is a parameter; reading and parsing the state file is not modelled.
- `FrozenSite.AnonymousSeesTheSnapshot`: speaks of runs in which no compensating rename failed and no backup is restored, which could replace the flag; the flag is kept beside the tree, not as a file in it.
- `RequestPaths.CanonicalUriLeadsBackIff`: strings are byte strings; the index file, if configured, is a plain name.
- `Pbkdf2.Derive`: HMAC is any function that yields 32 bytes; a negative key length, at which the program panics, is excluded by the type.
- `AuthStore.Store.CreateFirstAdmin`: addresses are normalised, stored ones too, over the letters and white space of ASCII; fields that nothing here reads (nickname, language, dates, titles, states of groups) are left out.
- `PasswordHash.HashPassword`: the salt is a parameter; a failing random source is a missing one in `AuthStore`.
- `Uploads.SaveUploadedMedia`: the hash has a fixed length, and the new content collides with no other content in the media directory; validation of the content is left out. A failing stat makes an existing file look missing, and a cleanup then removes it, which is why the promise is for runs without faults; a sidecar that existed is overwritten and not given back.
- `Uploads.SanitizeFileName`: starts from the last path element without surrounding white space; white space is that of the first 256 code points.
- `SaveQueue.NoTaskIsLost`: the watchdog query and the sleeps are left out, except that the watchdog may end an idle worker.
- Races between a rename and an edit, or between equal concurrent uploads: these requests share no lock, and each is taken as one step.

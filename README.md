# thumbtack mount bookkeeping in Dafny

thumbtack is a small web service that mounts forensic disk images read-only and lists
what they contain. This project models its mount bookkeeping, in two generations.

`src/thumbtack/utils.py` is the catalog-backed generation. It keeps two SQLite tables:

- `disk_images`: one row per image, with id, full path, status, mountpoint, reference
  count and pickled parser.
- `volumes`: one row per (disk, partition index).

It moves images through the states Unmounted, Mounted, Unable to mount and Manual mount:

- `mount_image` has its guards, one fallback retry with `qemu-nbd`, a LUKS check on
  final failure, and volume-row upserts.
- `add_mountpoint`, `unmount_image` and `unmount_all` handle the rest of the cycle.

Around that it keeps:

- the image registry in step with the image directory: `check_ignored`, `insert_image`,
  `remove_image` and `monitor_image_dir`;
- a few pure helpers: the credential key string of `create_key`, the HTML id of a
  volume, and the parsing of `imount --check` output.

`process_image_parser` flattens nested volumes (LVM and the like) into the first disk's
volume list in place. Appended volumes are numbered from the original length. Duplicate
volume groups and images without a mountable volume are rejected.

`thumbtack/manager.py` is the older, in-memory `MountManager`. It is a dictionary from
relative path to (parser, reference count) with mount, unmount, query and cleanup.

Modules, one per file:

| file | module | what it holds |
|---|---|---|
| `wrappers.dfy` | `Wrappers` | `Option`, `Result` |
| `text.dfy` | `Text` | `lower`, `endswith`, `in`, `split`, `replace`, `basename`, `str(int)`, on ASCII |
| `ignore_filter.dfy` | `IgnoreFilter` | `check_ignored`, its regular expressions read as suffix tests, and its rule-by-rule properties |
| `credentials.dfy` | `Credentials` | `create_key` and its inverse |
| `library_check.dfy` | `LibraryCheck` | the line loop of `get_supported_libraries` |
| `volume_uid.dfy` | `VolumeUid` | the volume id built in `get_image_info` |
| `volumes.dfy` | `Volumes` | the library's parser as an arena of volume nodes, and `process_image_parser` as a class that changes the volume list and `index` attributes in place |
| `catalog.dfy` | `Catalog` | the two tables as a `map` and a `seq`, the `ImageDatabase` class with the mount, unmount and registry operations, and their specifications |
| `manager.dfy` | `Manager` | the `MountManager` class over a `map` |

Modelling choices:

- The mounting library is described by the values it produces:
  - an `Attempt` is either an exception or a `Parser` with disk count, disk mountpoint and volume nodes;
  - an `Opening` is the same for the older manager.
- `clean()` is recorded in a ghost multiset of relative paths (a ghost flag on the parser).
- Answers from the file system come in as parameters: `os.access`, `os.path.isdir`, the
  directory listing, the walk entries, and the hidden and regular-file tests.
- `PATH_CONTAINS` and the mount directory are parameters too.

A volume list holds references, so one volume object can be listed twice. The model
keeps that. Take a volume with no mountpoint whose sub-volume has a truthy mountpoint
and a sub-volume of its own whose mountpoint is not None. Then that grandchild is
appended twice, as `NestedVolumeListedTwice` shows. Its `index` is then the one written last.

Three behaviours of the code are easy to misread. The model follows the code in each:

- A remount upserts volume rows and never deletes stale ones. It does not replace them all.
- The reconciler deletes only the `disk_images` row, whatever its reference count. The
  volume rows of that disk are kept.
- The reference count is reset to 0 only when the `qemu-nbd` retry also finds no
  mountable volume. These failures leave it at 1:
  - an unexpected disk count;
  - an exception from the library;
  - a duplicate volume group raised by the retry.

## Model

| member | source | states |
|---|---|---|
| LibraryCheck.ParseCheckLine | src/thumbtack/utils.py:34-42 | A line without a `MISSING`/`INSTALLED` token is skipped. A line with one but fewer than two tokens raises. Otherwise the line reports the second token as the library, installed exactly when the first token is `INSTALLED`. |
| LibraryCheck.SupportedLibraries | src/thumbtack/utils.py:31-44 | The loop over the output split on line feeds builds exactly the map `Collect` describes, or fails. |
| LibraryCheck.CollectFailsIffMalformed | src/thumbtack/utils.py:34-42 | The output fails to parse exactly when some line has a marker token but fewer than two tokens. |
| LibraryCheck.CollectLastWins | src/thumbtack/utils.py:39-42 | When the output parses, a reported library's value is that of the last line reporting it. |
| LibraryCheck.Collect | src/thumbtack/utils.py:34-42 | When the output parses, every library already in the map is still in it: lines only add or overwrite. |
| LibraryCheck.KeptUnreported | src/thumbtack/utils.py:34-42 | A library no line reports keeps its earlier presence and value. |
| LibraryCheck.CollectOnlyReported | src/thumbtack/utils.py:34-42 | Every key of the result was there before or is reported by some line. |
| Credentials.MethodCode | src/thumbtack/utils.py:814-825 | `p` for a BitLocker password or LUKS passphrase, `r` for a recovery key, `k` for the FVEK/tweak key; no code for any other method. |
| Credentials.CreateKey | src/thumbtack/utils.py:810-828 | `None` when method or key is `None` or the method is unknown; otherwise a key two characters longer than the secret with `:` second. |
| Credentials.ParseKeyArg | src/thumbtack/utils.py:827 | Whatever it parses reassembles to the key argument as `code:secret`. |
| Credentials.CreateKeyRoundTrip | src/thumbtack/utils.py:810-828 | A key is produced if and only if both arguments are given and the method is known; parsing it gives back the method's code and the secret. |
| Credentials.PasswordAndPassphraseShareCode | src/thumbtack/utils.py:816-823 | BitLocker passwords and LUKS passphrases give the same key, `p:` + secret. |
| VolumeUid.Sanitize | src/thumbtack/utils.py:471-473 | Sanitising keeps the length, leaves no `/`, `:` or `.`, and keeps every other character in place. |
| VolumeUid.Uid | src/thumbtack/utils.py:471-474 | The id has no `/`, `:` or `.`; it is the sanitised path, then `_`, then the partition index printed by `str`. |
| VolumeUid.UidDistinctIndices | src/thumbtack/utils.py:474 | The index reads back from the id's tail, so two volumes of one image never share an id. |
| VolumeUid.SanitizePointwise | src/thumbtack/utils.py:471-473 | Sanitising keeps the length, maps `/` to `_` and `:` and `.` to `-` character by character, and leaves none of them behind. |
| VolumeUid.SanitizeIdempotent | src/thumbtack/utils.py:471-473 | Sanitising twice equals sanitising once. |
| VolumeUid.SanitizeMerges | src/thumbtack/utils.py:471-474 | Paths that agree after sanitising (e.g. `a/b` and `a_b`) get the same id for every index. |
| Text.Words | src/thumbtack/utils.py:35 | `split()` yields non-empty words free of white space. |
| Text.WordsConcat | src/thumbtack/utils.py:35 | Cutting a line where white space meets the cut splits its words there: a word is never cut, so every word is a maximal non-space run. |
| Text.WordsOfWord | src/thumbtack/utils.py:35 | A non-empty run without white space is exactly one word. |
| Text.WordsOfSpace | src/thumbtack/utils.py:35 | White space alone has no words. |
| Text.WordsKeepNonSpace | src/thumbtack/utils.py:35 | The words, concatenated, are exactly the non-space characters of the line. |
| Text.SplitOn | src/thumbtack/utils.py:31 | `split("\n")` yields at least one piece and no piece contains the separator. |
| Text.JoinSplitOn | src/thumbtack/utils.py:31 | Joining the pieces with the separator gives back the input. |
| Text.FileName | src/thumbtack/utils.py:760 | `basename` is a suffix of the path without `/`, preceded by `/` when shorter than the path. |
| Text.FirstDotPart | src/thumbtack/utils.py:760 | `split('.')[0]` is the longest prefix without a dot. |
| Text.LowerStr | src/thumbtack/utils.py:747 | `lower()` keeps the length and leaves no capital letter. |
| Text.LowerIdempotent | src/thumbtack/utils.py:747 | Lower-casing twice is lower-casing once. |
| Text.LowerNoUpper | src/thumbtack/utils.py:747 | `lower()` leaves a string unchanged exactly when it has no capital letter. |
| Text.Replace | src/thumbtack/utils.py:472 | `replace` of one character keeps the length, keeps every other character in place, leaves none of the replaced character when the replacement differs, and changes nothing when the character is absent. |
| Text.IntToString | src/thumbtack/utils.py:474 | `str(int)` is non-empty and made of digits and a minus sign. |
| Text.IntToStringRoundTrip | src/thumbtack/utils.py:474 | `int(str(i)) == i`. |
| Text.IntToStringInjective | src/thumbtack/utils.py:474 | Distinct integers print differently. |
| IgnoreFilter.ReSubject | src/thumbtack/utils.py:741 | The text `re.match(".*P$")` can match has no line feed (`.` stops at one, `$` also matches before a final one). |
| IgnoreFilter.LowerAll | src/thumbtack/utils.py:763 | The lower-cased listing has one entry per name, of the same length, with no capital letter. |
| IgnoreFilter.LowerAllKeeps | src/thumbtack/utils.py:763 | Names already in lower case are kept as they are, and the lower-cased form of every name is in the listing. |
| IgnoreFilter.CheckIgnored | src/thumbtack/utils.py:732-808 | Directories, per-segment reports and sidecar files are always ignored; a path the configured filter rejects is kept only when it ends `raw` or `img`. |
| IgnoreFilter.DigitSegmentAsRegex | src/thumbtack/utils.py:776 | The second pattern of the segment rule holds exactly when some run of at least two trailing digits follows `.`, a class letter and an optional `X`. |
| IgnoreFilter.FirstSegmentExactly | src/thumbtack/utils.py:777 | After a dot, `[EL]X?01` matches a three-character extension exactly when it is `E`/`L` then `01`. |
| IgnoreFilter.DirectoriesIgnored | src/thumbtack/utils.py:735-736 | A directory is ignored whatever its name. |
| IgnoreFilter.SegmentReportIgnored | src/thumbtack/utils.py:738-742 | A per-segment report `.E01.adcf` (class `[EL]`, two word characters) is ignored. |
| IgnoreFilter.SegmentReportMatches | src/thumbtack/utils.py:741 | Such a name matches the report pattern. |
| IgnoreFilter.ReportHasSidecarSuffix | src/thumbtack/utils.py:741-748 | A report match that is neither `.adcf` nor `.packed_log` already ends in a sidecar suffix. |
| IgnoreFilter.LogSidecarsIgnored | src/thumbtack/utils.py:744-748 | Paths ending `.txt`, `.log` or `.packed_log` in any case are ignored. |
| IgnoreFilter.RawIncluded | src/thumbtack/utils.py:750-754 | A non-directory path ending `raw` in any case is kept, whatever `PATH_CONTAINS` says. |
| IgnoreFilter.RawNotSidecar | src/thumbtack/utils.py:738-748 | A path ending `raw` is caught by neither earlier rule. |
| IgnoreFilter.ImgIgnoredIffEwfSiblings | src/thumbtack/utils.py:756-766 | A non-directory path ending `img` is ignored if and only if `<stem>.e01` and `<stem>.imf` are both among the lower-cased siblings. |
| IgnoreFilter.ImgNotEarlier | src/thumbtack/utils.py:738-754 | A path ending `img` reaches the `img` rule. |
| IgnoreFilter.LetterSegmentMatches | src/thumbtack/utils.py:776 | `.` + a letter of `[EFGHIJKLMNOPQRSTUWXYZ]` + two word characters matches the letter-segment pattern. |
| IgnoreFilter.LetterSegmentIgnored | src/thumbtack/utils.py:773-779 | Such an extension that is not a sidecar, raw, img or first segment is ignored (`.E02`, `.EAA`, `.FAB`, `.iso`). |
| IgnoreFilter.LetterSegmentCaught | src/thumbtack/utils.py:773-779 | The same for an extension whose last character cannot end an earlier suffix. |
| IgnoreFilter.FirstSegmentKept | src/thumbtack/utils.py:773-779 | `.E01`/`.L01` in any case is kept unless the path filter rejects it. |
| IgnoreFilter.EvidenceSegmentExamples | src/thumbtack/utils.py:773-779 | `.E01` and `.L01` are kept up to the path filter; `.E02`, `.EAA`, `.FAB` and `.iso` are ignored. |
| IgnoreFilter.NumericExtFacts | src/thumbtack/utils.py:776-785 | A dot and three digits matches the numeric pattern and neither segment pattern; it is the first segment exactly when it is `001`. |
| IgnoreFilter.NumericLaterIgnored | src/thumbtack/utils.py:781-785 | `.002` … `.999` are ignored. |
| IgnoreFilter.NumericFirstKept | src/thumbtack/utils.py:781-785 | `.001` is kept unless the path filter rejects it. |
| IgnoreFilter.DdKept | src/thumbtack/utils.py:773-806 | `.dd` passes the segment class (it omits `D`) and every later rule, so it is kept up to the path filter. |
| IgnoreFilter.RawSegmentExamples | src/thumbtack/utils.py:773-806 | `.001` and `.dd` are kept up to the path filter; `.002` is ignored. |
| IgnoreFilter.VmdkExtentIgnored | src/thumbtack/utils.py:787-789 | `-sNNN.vmdk` (any case, word characters) is ignored. |
| IgnoreFilter.VmdkExtentMatches | src/thumbtack/utils.py:788 | Such a name matches the extent pattern. |
| IgnoreFilter.VhdChildIgnored | src/thumbtack/utils.py:791-795 | `-N.vhd` with `N` a digit string other than `0` is ignored. |
| IgnoreFilter.VhdChildMatches | src/thumbtack/utils.py:792-794 | Such a name matches the child pattern and not the base pattern. |
| IgnoreFilter.VhdBaseKept | src/thumbtack/utils.py:791-806 | `-0.vhd` is kept unless the path filter rejects it. |
| IgnoreFilter.VirtualDiskNotSegment | src/thumbtack/utils.py:738-785 | A `.vmdk` or `.vhd` name is caught by none of the earlier rules. |
| IgnoreFilter.VirtualDiskExamples | src/thumbtack/utils.py:787-806 | `-s001.vmdk` and `-1.vhd` are ignored; `-0.vhd` is kept up to the path filter. |
| IgnoreFilter.PathFilterOnlyNarrows | src/thumbtack/utils.py:797-806 | Configuring `PATH_CONTAINS` can only add ignored paths. |
| IgnoreFilter.PathFilterMatched | src/thumbtack/utils.py:797-806 | A path containing the configured string is classified as with no filter. |
| IgnoreFilter.KeptPathContainsFilter | src/thumbtack/utils.py:797-806 | A kept path that is neither raw nor img contains the configured string. |
| Volumes.MountedAmong | src/thumbtack/utils.py:159-167 | The sub-volumes appended are all numbered above their parent. |
| Volumes.MountedAmongMembers | src/thumbtack/utils.py:159-167 | A sub-volume is appended exactly when it is listed and its mountpoint is not `None`. |
| Volumes.MountedAmongPrefix | src/thumbtack/utils.py:159-167 | The appends keep the order of the listing: what is kept of a prefix of the listing is a prefix of what is kept of the whole. |
| Volumes.SubVolumeStep | src/thumbtack/utils.py:159-167 | One more sub-volume adds itself when its mountpoint is not `None`, and its group name when flagged. |
| Volumes.Appends | src/thumbtack/utils.py:138-167 | The volumes appended while one volume is visited are all numbered above it. |
| Volumes.Run | src/thumbtack/utils.py:137-167 | The list after visiting every entry, appended ones included, is made of known volumes. |
| Volumes.VisitLowersWeight | src/thumbtack/utils.py:138-167 | Each visit lowers the weight still to visit by one, so the loop over a growing list ends. |
| Volumes.RunStep | src/thumbtack/utils.py:138-167 | One visit appends `Appends` and adds that volume's events, leaving the rest of the run unchanged. |
| Volumes.RunKeepsPrefix | src/thumbtack/utils.py:137-167 | The volumes listed before flattening stay, in place, at the front. |
| Volumes.LastAt | src/thumbtack/utils.py:144-165 | The last position where a volume is listed, or the default when it is not. |
| Volumes.NumberedIsLast | src/thumbtack/utils.py:144-165 | After numbering, each volume's `index` is the last position it was appended at, or its old value. |
| Volumes.ConsecutiveIndices | src/thumbtack/utils.py:137-167 | Appended volumes, each appended once, carry consecutive indices from the original length on. |
| Volumes.VisitEvents | src/thumbtack/utils.py:139-165 | A flagged volume reports its own group name first; a volume with a mountpoint reports at most its own. |
| Volumes.AllEventsReportsFlagged | src/thumbtack/utils.py:138-165 | The group name of every flagged listed volume is among the names reported during the loop. |
| Volumes.Numbered | src/thumbtack/utils.py:144-165 | Numbering keeps one `index` per volume and leaves alone every volume not appended. |
| Volumes.FlaggedIsReported | src/thumbtack/utils.py:139-169 | A flagged volume in the final list was reported during the loop. |
| Volumes.VerdictCases | src/thumbtack/utils.py:169-181 | Duplicate volume group exactly when one was seen; otherwise no mountable volume exactly when no listed volume has a truthy mountpoint; otherwise success. |
| Volumes.Verdict | src/thumbtack/utils.py:169-181 | A flagged listed volume always ends in a duplicate group error; "no mountable volumes" means no listed volume has a truthy mountpoint; success means one has and none is flagged. |
| Volumes.FlatList | src/thumbtack/utils.py:137-167 | The flattened list starts with the volumes listed before. |
| Volumes.FlatIndex | src/thumbtack/utils.py:137-167 | Each volume's `index` is the last position it was appended at, or what the library gave it. |
| Volumes.ProcessOutcome | src/thumbtack/utils.py:119-181 | An unexpected disk error exactly when the disk count is not 1, carrying that count; success only with a truthy listed mountpoint and no flagged volume. |
| Volumes.NestedShapeAppends | src/thumbtack/utils.py:147-167 | The appends for a volume without a mountpoint over a sub-volume with a truthy mountpoint, whose own sub-volume has a mountpoint that is not None. |
| Volumes.NestedVolumeListedTwice | src/thumbtack/utils.py:138-167 | In that shape the grandchild ends up listed twice: `[0, 1, 2, 2]`. |
| Volumes.ImageParser.AppendAt | src/thumbtack/utils.py:144-146 | Appends one volume and records its position as its `index`. |
| Volumes.ImageParser.AppendEach | src/thumbtack/utils.py:142-146 | The branch for a volume with a mountpoint appends all its sub-volumes, numbered. |
| Volumes.ImageParser.VisitOneSub | src/thumbtack/utils.py:159-167 | One sub-sub-volume: its flag updates the duplicate flag and name; it is appended when its mountpoint is not `None`. |
| Volumes.ImageParser.VisitSubVolumes | src/thumbtack/utils.py:158-167 | The inner loop appends `MountedAmong` and reports `FlaggedNames`, the last one winning. |
| Volumes.ImageParser.VisitNestedOne | src/thumbtack/utils.py:149-167 | One sub-volume of a volume without a mountpoint appends `NestedPiece` and reports `NestedNames`. |
| Volumes.ImageParser.VisitNested | src/thumbtack/utils.py:147-167 | The branch for a volume without a mountpoint appends `NestedAppends` and reports `NestedEvents`. |
| Volumes.ImageParser.Visit | src/thumbtack/utils.py:138-167 | Visiting one volume appends `Appends` and reports `VisitEvents`. |
| Volumes.ImageParser.FlattenVolumes | src/thumbtack/utils.py:137-167 | The list becomes `Run` of the old list, indices are `Numbered` from the old length, and the duplicate flag and name summarise all events. |
| Volumes.ImageParser.ProcessImageParser | src/thumbtack/utils.py:110-182 | A disk count other than 1 raises and cleans, leaving the volumes alone. Otherwise the list is flattened with last-write indices, the outcome is `Verdict`, and the parser is cleaned exactly on no mountable volume. |
| Catalog.FullPathInjective | src/thumbtack/utils.py:527-531 | Full paths under one image directory identify the relative path, so `WHERE full_path = ?` matches the key. |
| Catalog.RecountOk | src/thumbtack/utils.py:91-106 | Changing a sound row's count within its state's range keeps it sound. |
| Catalog.MountGuard | src/thumbtack/utils.py:184-212 | No mount directory exactly when it is unset; an uncatalogued or unreadable image is refused; an image is taken as already mounted exactly when catalogued, readable and Mounted or Manual mount; a mount in progress, and the go-ahead, only for an image that is neither. |
| Catalog.GuardError | src/thumbtack/utils.py:184-212 | A refusing guard raises one of its four exceptions. |
| Catalog.GuardErrorDistinct | src/thumbtack/utils.py:184-212 | Each refusing guard raises its own exception. |
| Catalog.ProceedOnlyWhenIdle | src/thumbtack/utils.py:184-222 | The library is called if and only if the mount directory is set, the image is catalogued and readable, unmounted, with count 0. |
| Catalog.UnableToMountIsStuck | src/thumbtack/utils.py:204-212 | An image the library could not mount has count 1, so every later mount is refused as a duplicate attempt. |
| Catalog.MountPlan | src/thumbtack/utils.py:224-262 | The attempts end in an exception or in a parser to store, which the library described soundly. |
| Catalog.RollbackOnlyAfterRetry | src/thumbtack/utils.py:238-262 | A failure leaves count 0 exactly when both attempts found no mountable volume, otherwise 1. |
| Catalog.EncryptedOnlyAfterRetry | src/thumbtack/utils.py:244-262 | `EncryptedImage` is raised if and only if both attempts found nothing and the retry lists a LUKS volume, with whether a key was given; when both found nothing and no LUKS volume is listed, `NoMountableVolumes` is raised with the count reset to 0. |
| Catalog.OtherFailures | src/thumbtack/utils.py:224-262 | Any other failure is a library exception, an unexpected disk count, or a duplicate volume group; the last only when the first attempt found nothing and the retry reported that group. |
| Catalog.StoredParserOrigin | src/thumbtack/utils.py:224-243 | A stored parser has one disk. A duplicate group is re-raised exactly when it came from the first attempt. A parser from the retry means the first attempt found nothing. |
| Catalog.PersistedRow | src/thumbtack/utils.py:264-286 | The stored row keeps id and paths. |
| Catalog.PersistedRowOk | src/thumbtack/utils.py:264-286 | The stored row is sound, has count 1, and is Mounted exactly when the disk's mountpoint is truthy (Unable to mount otherwise). |
| Catalog.VolumeRowFor | src/thumbtack/utils.py:289-295 | A volume's row is under the disk and the volume's index; it is Mounted with the volume's mountpoint when that is truthy, and Unable to mount with none otherwise. |
| Catalog.Upsert | src/thumbtack/utils.py:299-312 | The table grows by the row exactly when no row has its (disk, index) key; the rows with the key take its status and mountpoint and keep their key; other rows are untouched. |
| Catalog.UpsertAll | src/thumbtack/utils.py:288-312 | The write loop adds at most one row per listed volume and removes none; every old row keeps its (disk, index) key, and one whose key no listed volume writes is unchanged. |
| Catalog.UpsertAllOtherDisks | src/thumbtack/utils.py:288-312 | Other disks' rows are untouched and every new row belongs to this disk. |
| Catalog.UpsertAllCovers | src/thumbtack/utils.py:288-312 | Every listed volume whose index is not re-used later has exactly its row in the table afterwards. |
| Catalog.UnmountDecision | src/thumbtack/utils.py:379-411 | Release exactly when the count is 1 or forced; "not mounted" exactly when unforced below 1; decrement exactly when unforced above 1. |
| Catalog.AfterUnmount | src/thumbtack/utils.py:374-411 | Keeps id and paths, never raises a non-negative count, and either unmounts the row or changes at most its count. |
| Catalog.UnmountResult | src/thumbtack/utils.py:374-411 | `unmount_image` returns True exactly when the image is left with a count below 1. |
| Catalog.NullIds | src/thumbtack/utils.py:393-398 | Volume rows are nulled only for this disk, exactly when a release meets a Mounted image. |
| Catalog.DeleteIds | src/thumbtack/utils.py:399-403 | Volume rows are deleted only for this disk, exactly when a release meets a Manual mount, and never together with nulling. |
| Catalog.ResetRow | src/thumbtack/utils.py:387-391 | A release sets count 0, status Unmounted, no mountpoint, no parser, keeping id and paths. |
| Catalog.UnmountOutcomes | src/thumbtack/utils.py:374-411 | Returns True if and only if count ≤ 1 or forced. Count 1 or force resets the row; volume rows are nulled for Mounted and deleted for Manual mount. Count < 1 changes nothing. Count > 1 decrements and keeps the parser. |
| Catalog.UnableToMountKeepsVolumeRows | src/thumbtack/utils.py:381-403 | Releasing an Unable-to-mount image neither nulls nor deletes volume rows, and cleans nothing. |
| Catalog.AfterUnmountOk | src/thumbtack/utils.py:374-411 | Unmounting keeps a sound row sound. |
| Catalog.ReleaseVolumes | src/thumbtack/utils.py:393-403 | Rows of deleted disks are gone and no row is added. |
| Catalog.ReleaseVolumesTwice | src/thumbtack/utils.py:393-403 | Two release rounds are one round with both rounds' disks. |
| Catalog.ReleaseVolumesKeepsOthers | src/thumbtack/utils.py:393-403 | Rows of other disks are kept, in order. |
| Catalog.ReleasedDisk | src/thumbtack/utils.py:393-403 | A deleted disk has no rows left; a nulled disk keeps its rows, each with no mountpoint and status Unmounted. |
| Catalog.MountedRels | src/thumbtack/utils.py:506-520 | `get_images(mounted=True)` selects exactly the rows with a positive count. |
| Catalog.UnmountRows | src/thumbtack/utils.py:414-421 | `unmount_all` keeps the set of catalogued images. |
| Catalog.ForcedUnmountAllClears | src/thumbtack/utils.py:414-421 | A forced `unmount_all` leaves every image Unmounted with count 0 and no parser, cleaning exactly the Mounted ones. |
| Catalog.UnmountAllWithoutForce | src/thumbtack/utils.py:414-421 | Without force an image held once is released and one held more loses one reference. |
| Catalog.UnmountAllStep | src/thumbtack/utils.py:418-421 | One more `unmount_image` in the loop moves the image from pending to done in all three results. |
| Catalog.NewRow | src/thumbtack/utils.py:523-536 | An inserted row is sound, Unmounted, count 0, named by the path's basename. |
| Catalog.Insert | src/thumbtack/utils.py:523-536 | The path becomes catalogued and other rows are kept; an unknown path gets a fresh row with the next id, and a known one changes nothing. |
| Catalog.Remove | src/thumbtack/utils.py:564-573 | The path is no longer catalogued; other rows and the next id are kept. |
| Catalog.InsertRemove | src/thumbtack/utils.py:523-536 | Inserting twice is inserting once; removing a fresh insert restores the catalog. |
| Catalog.InsertRemoveKeepOk | src/thumbtack/utils.py:523-573 | Inserting and removing keep the catalog sound. |
| Catalog.WalkStep | src/thumbtack/utils.py:616-626 | One walk entry touches only its own row, and never lowers the next id. |
| Catalog.WalkStepFate | src/thumbtack/utils.py:620-626 | An ignored entry loses its row; an eligible one has one; an existing row is never rewritten; anything else changes nothing. |
| Catalog.Walk | src/thumbtack/utils.py:612-626 | The walk loop never lowers the next id. |
| Catalog.WalkedPaths | src/thumbtack/utils.py:618-619 | `full_path_filenames` is the walked full paths, in order. |
| Catalog.Prune | src/thumbtack/utils.py:628-634 | A row survives exactly when its full path was walked, unchanged. |
| Catalog.WalkKeepsOk | src/thumbtack/utils.py:612-626 | The walk keeps the catalog sound. |
| Catalog.WalkUntouched | src/thumbtack/utils.py:612-626 | A path the walk does not list keeps its row or its absence. |
| Catalog.WalkEntryFate | src/thumbtack/utils.py:612-626 | For a listed path the walk agrees with that path's own step. |
| Catalog.WalkFate | src/thumbtack/utils.py:612-626 | After the walk an ignored entry has no row; an eligible one has one, unchanged if it existed; others are left alone. |
| Catalog.MonitorOnlyKeepsListed | src/thumbtack/utils.py:603-634 | After `monitor_image_dir` every catalogued image was listed by the walk. |
| Catalog.MonitorFate | src/thumbtack/utils.py:603-634 | After `monitor_image_dir` eligible entries are catalogued and ignored ones are not. |
| Catalog.ManualRow | src/thumbtack/utils.py:320-363 | A manual mount keeps id and paths. |
| Catalog.ManualRowOverrides | src/thumbtack/utils.py:320-363 | The row becomes a sound Manual mount with count 1, the given mountpoint and a one-volume parser, whatever it was before. |
| Catalog.ManualVolumesAccumulate | src/thumbtack/utils.py:365-370 | Each `add_mountpoint` adds one index-0 row to its disk and leaves other disks' rows alone. |
| Catalog.ImageDatabase.OpenAndProcess | src/thumbtack/utils.py:227-243 | The library raises, or the parser it built has been through `process_image_parser` with the flattened list and indices. |
| Catalog.ImageDatabase.FindLuks | src/thumbtack/utils.py:256-261 | The loop finds a LUKS volume exactly when one is listed. |
| Catalog.ImageDatabase.UpsertVolumes | src/thumbtack/utils.py:288-312 | The volume table becomes `UpsertAll` of the old one; nothing else changes. |
| Catalog.ImageDatabase.SetRow | src/thumbtack/utils.py:274-286 | An `UPDATE` of one catalogued row; the catalog stays sound. |
| Catalog.ImageDatabase.MountAttempts | src/thumbtack/utils.py:224-262 | The attempts produce `MountPlan`, and a parser whose list and indices are the flattened ones. |
| Catalog.ImageDatabase.AddReference | src/thumbtack/utils.py:205-208 | A mounted image gains exactly one reference and returns its stored disk; nothing else changes. |
| Catalog.ImageDatabase.Attach | src/thumbtack/utils.py:214-318 | From an Unmounted row, the end state is `MountStored` of the plan: the failure count, or the persisted row and upserted volumes, with the result. |
| Catalog.MountStored | src/thumbtack/utils.py:224-318 | The end of a mount once the library was called: a failure sets the count the plan names and raises; a stored parser persists the row, upserts the volume rows, and returns the disk or re-raises a duplicate group from the first attempt. |
| Catalog.ImageDatabase.MountImage | src/thumbtack/utils.py:184-318 | Refusing guards raise their error with no change; an already mounted image gains exactly one reference; otherwise the end state is `MountStored`. |
| Catalog.ImageDatabase.AddMountpoint | src/thumbtack/utils.py:320-371 | A library exception or an unknown path changes nothing; otherwise the row becomes `ManualRow` and one `ManualVolume` row is appended. |
| Catalog.ImageDatabase.UnmountImage | src/thumbtack/utils.py:374-411 | An unknown path raises with no change. Otherwise the row becomes `AfterUnmount`, the volume rows are released as `NullIds`/`DeleteIds` say, and the parser is cleaned exactly for a released Mounted image. |
| Catalog.ImageDatabase.UnmountAll | src/thumbtack/utils.py:414-421 | Rows, volume rows and cleaned parsers are those of `unmount_image` on every image with a positive count. |
| Catalog.ImageDatabase.UnmountAllRound | src/thumbtack/utils.py:418-421 | One iteration extends the done set by one image in all three results. |
| Catalog.ImageDatabase.InsertImage | src/thumbtack/utils.py:523-536 | The registry becomes `Insert`: a new row only for an unknown path. |
| Catalog.ImageDatabase.RemoveImage | src/thumbtack/utils.py:564-573 | The registry becomes `Remove`; volume rows stay. |
| Catalog.ImageDatabase.WalkImageDir | src/thumbtack/utils.py:612-626 | The registry becomes `Walk` and the listed paths are returned in order. |
| Catalog.ImageDatabase.PruneImages | src/thumbtack/utils.py:628-634 | The catalog becomes `Prune` of itself by the walked paths. |
| Catalog.ImageDatabase.MonitorImageDir | src/thumbtack/utils.py:603-634 | The catalog becomes `Prune(Walk(...))`, which `MonitorFate` and `MonitorOnlyKeepsListed` characterise. |
| Manager.Acquire | thumbtack/manager.py:48-55 | Adds the path and keeps every other entry. |
| Manager.Release | thumbtack/manager.py:127-136 | Keeps every other entry and its presence. |
| Manager.AcquireHeld | thumbtack/manager.py:48-55 | Counts stay at least 1; a tracked image gains exactly one with the same parser, a new one starts at 1. |
| Manager.ReleaseHeld | thumbtack/manager.py:127-136 | Counts stay at least 1; the entry goes exactly when its count was 1, otherwise it loses one and keeps its parser. |
| Manager.ReleaseUndoesAcquire | thumbtack/manager.py:48-136 | Releasing what was just acquired restores the dictionary. |
| Manager.AcquiresAccumulate | thumbtack/manager.py:48-55 | `n` further mounts raise the count by exactly `n`. |
| Manager.MountManager.MountImage | thumbtack/manager.py:27-92 | Tracked path: same disk, one more reference. Unreadable or raising: error, no change. Disk count other than 1 or nothing mountable: error, cleaned, no change. Otherwise tracked with count 1. The invariant that every count is ≥ 1 is kept. |
| Manager.MountManager.HasMountableVolume | thumbtack/manager.py:86 | The comprehension is non-empty exactly when some volume's mountpoint is truthy. |
| Manager.MountManager.GetMount | thumbtack/manager.py:94-111 | The stored disk for a tracked path, a 404 otherwise. |
| Manager.MountManager.UnmountImage | thumbtack/manager.py:113-136 | Untracked: 404 with no change. Otherwise the dictionary becomes `Release` and the parser is cleaned exactly when the count was 1. |
| Manager.MountManager.GetRefCount | thumbtack/manager.py:150-154 | Never negative, and 0 exactly for an untracked path. |
| Manager.MountManager.AllMounts | thumbtack/manager.py:138-148 | One disk per entry, each entry once, in an order `order` names. |
| Manager.MountManager.Cleanup | thumbtack/manager.py:156-166 | Every tracked parser is cleaned once and the dictionary is kept. |

## Left out

- The mounting library. Its internals are out: `ImageParser`, `init`, `clean`, `fstypes`, the volume objects.
  - It is described by the `Attempt`/`Opening` values it produces.
  - `clean()` is a ghost record.
  - `str(v)` containing "LUKS encrypted file" is the node's `luks` flag.
- SQLite, pickling and `get_mount_codes` are out. The tables are a `map` and a `seq`, the status codes a datatype, and a stored parser the `Disk` it hands back.
  - SQLite's reuse of row ids is not modelled: ids come from a counter.
  - The invariant does not require ids to be distinct.
- `os.access`, `os.path.isdir`, `os.listdir`, `os.walk`, `Path.is_file` and the `imount --check` subprocess are parameters:
  - `readable`, `ctx.isDir`, `ctx.siblings`, the walk entries, `isFile`, the command's output.
  - `SKIP_SUBDIRECTORY` pruning is folded into the given walk entries.
- `insert_images`, `remove_images`, `startup_remove_dirs`, `get_db`, `init_db`, `query_db`, `close_connection`, `get_mount_info` and `get_image_info` are left out: walk plumbing, subprocess calls and database glue. Only the `uid` of `get_image_info` is modelled.
- Log messages are left out.
- Python's exceptions are `Err` values.
  - Flask's `abort(404)` is `Err(NotMounted)`.
  - Subscripting the `None` of an unknown path is `MissingRowError`.
- `Text.LowerStr`, `Text.IsWordChar`, `Text.IsDigit`, `Text.IsSpace`, `IgnoreFilter.InClass`, `IgnoreFilter.IsX`, `IgnoreFilter.IsS` and `Text.EndsWithCI`: ASCII only. Python's Unicode tables for `lower()`, `\w`, `\d` and `isspace()`, and the Unicode case folding of `re.I`, are not modelled.
- A volume's `index` is an `int` rather than a string. The string keys the `volumes` rows and is printed into the uid (`utils.py:474`); the model prints the `int` with `str`. An index the library gives with a dot in it would put that dot into the uid, which the model does not express.
- `Catalog.FullPath` is `IMAGE_DIR + "/" + rel`. `pathlib` normalisation is not modelled: a trailing `/` on `IMAGE_DIR` or a `./` inside the relative path gives a different string here than `str(Path(...))`.
- `add_mountpoint`'s parser is the `ManualDisk` it stands for. It assigns one volume to `disks[0].volumes`, not a list, and the pickled object is not modelled.
- Manager.MountManager.Cleanup: `iteritems` (Python 2) is taken to succeed. Under Python 3 the call raises before any parser is cleaned.
- Manager.MountManager.AllMounts: the dictionary's insertion order is abstracted by the ghost `order`. It is a permutation of the keys, not a specific one.
- Catalog.ImageDatabase.UnmountAll: the order of the `SELECT` rows is abstracted. The loop visits the images with a positive count in any order, and its result does not depend on it.
- Catalog.ImageDatabase.MountImage: `creds` matters only through whether a key was given. The key string goes to the library.
- Concurrency is left out: the directory-monitoring thread and request interleavings. Each operation is one atomic step.

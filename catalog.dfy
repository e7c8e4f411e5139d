/** The catalog of `src/thumbtack/utils.py`: the `disk_images` and `volumes` tables and
    the operations that move an image through its mount states (`mount_image`,
    `add_mountpoint`, `unmount_image`, `unmount_all`) and keep the image registry in
    step with the image directory (`insert_image`, `remove_image`, `monitor_image_dir`).

    `disk_images` is a map from the relative path to the row; `volumes` is a list of rows,
    because nothing in the schema keeps a (disk, partition index) pair unique and
    `add_mountpoint` inserts without looking. The mounting library is described by the
    `Parser` values it produces; `clean()` on a stored parser is recorded in a ghost
    multiset of relative paths. */
module Catalog {
  import opened Wrappers
  import Text
  import Volumes
  import IgnoreFilter
  import Credentials

  // ---------------------------------------------------------------------------
  // Rows

  /** The four rows of `mount_status_codes`. */
  datatype Status = Mounted | UnableToMount | Unmounted | ManualMount

  /** The first disk of a stored parser: what `mount_image` hands back. A parser made
      by `add_mountpoint` has one volume whose file system is mounted at a given path. */
  datatype Disk =
    | Disk(mountpoint: Option<string>, nodes: seq<Volumes.VolumeNode>, volumes: seq<nat>, index: seq<int>)
    | ManualDisk(volumeMountpoint: string)

  datatype ImageRow = ImageRow(
    id: int,
    fullPath: string,
    fileName: string,
    status: Status,
    mountpoint: Option<string>,
    refCount: int,
    parser: Option<Disk>)

  datatype VolumeRow = VolumeRow(diskId: int, index: int, status: Status, mountpoint: Option<string>)

  /** The exceptions the operations raise. `LibraryError` stands for any exception out
      of the mounting library; `MissingRowError` for the `TypeError` of subscripting the
      `None` that `get_image_info` returns for an unknown path. */
  datatype MountError =
    | NotADirectoryError
    | ImageNotInDatabaseError
    | PermissionError
    | DuplicateMountAttemptError
    | UnexpectedDiskError(count: nat)
    | DuplicateVolumeGroupError(vgName: string)
    | NoMountableVolumesError
    | EncryptedImageError(keyGiven: bool)
    | LibraryError
    | MissingRowError

  function FullPath(imageDir: string, rel: string): string {
    imageDir + "/" + rel
  }

  /** What every row of `disk_images` satisfies between two operations. */
  predicate RowOk(imageDir: string, rel: string, row: ImageRow) {
    && row.fullPath == FullPath(imageDir, rel)
    && row.refCount >= 0
    && (row.status == Mounted ==> row.refCount >= 1 && row.parser.Some? && row.parser.value.Disk? && Volumes.Truthy(row.mountpoint))
    && (row.status == ManualMount ==> row.refCount >= 1 && row.parser.Some? && row.mountpoint.Some?)
    && (row.status == UnableToMount ==> row.refCount == 1 && row.parser.Some? && row.parser.value.Disk?)
    && (row.status == Unmounted ==> row.refCount <= 1 && row.parser.None? && row.mountpoint.None?)
  }

  /** Every row is sound and its id is below the next one handed out. */
  predicate CatalogOk(imageDir: string, images: map<string, ImageRow>, nextId: int) {
    forall rel :: rel in images ==> RowOk(imageDir, rel, images[rel]) && images[rel].id < nextId
  }

  lemma FullPathInjective(imageDir: string, a: string, b: string)
    ensures FullPath(imageDir, a) == FullPath(imageDir, b) <==> a == b
  {
    var pre := imageDir + "/";
    if FullPath(imageDir, a) == FullPath(imageDir, b) {
      assert a == FullPath(imageDir, a)[|pre|..];
      assert b == FullPath(imageDir, b)[|pre|..];
    }
  }

  lemma UpdateTwice(images: map<string, ImageRow>, rel: string, a: ImageRow, b: ImageRow)
    ensures images[rel := a][rel := b] == images[rel := b]
  {
  }

  /** Changing the count of a sound row keeps it sound when the count stays in the range
      its status allows. */
  lemma RecountOk(imageDir: string, rel: string, row: ImageRow, c: int)
    requires RowOk(imageDir, rel, row)
    requires row.status == Unmounted ==> 0 <= c <= 1
    requires row.status != Unmounted ==> c >= 1 && (row.status == UnableToMount ==> c == 1)
    ensures RowOk(imageDir, rel, row.(refCount := c))
  {
  }

  /** Replacing one row by a sound row with the same id keeps the catalog sound. */
  lemma UpdateKeepsCatalogOk(imageDir: string, images: map<string, ImageRow>, nextId: int, rel: string, row: ImageRow)
    requires CatalogOk(imageDir, images, nextId) && rel in images
    requires row.id == images[rel].id && RowOk(imageDir, rel, row)
    ensures CatalogOk(imageDir, images[rel := row], nextId)
  {
  }

  // ---------------------------------------------------------------------------
  // mount_image: the guards

  datatype Guard = NoMountDir | NotCatalogued | Unreadable | AlreadyMounted | InFlight | Proceed

  /** The checks `mount_image` makes before it calls the library, in their order. */
  function MountGuard(mountDir: string, images: map<string, ImageRow>, rel: string, readable: bool): (g: Guard)
    ensures g == NoMountDir <==> mountDir == ""
    ensures g == NotCatalogued ==> rel !in images
    ensures g == Unreadable ==> rel in images && !readable
    ensures g == AlreadyMounted || g == InFlight || g == Proceed ==> mountDir != "" && rel in images && readable
    ensures g == AlreadyMounted <==> g != NoMountDir && rel in images && readable && images[rel].status in {Mounted, ManualMount}
    ensures g == InFlight ==> images[rel].refCount == 1 && images[rel].status !in {Mounted, ManualMount}
    ensures g == Proceed ==> images[rel].refCount != 1 && images[rel].status !in {Mounted, ManualMount}
  {
    if mountDir == "" then NoMountDir
    else if rel !in images then NotCatalogued
    else if !readable then Unreadable
    else if images[rel].status == Mounted || images[rel].status == ManualMount then AlreadyMounted
    else if images[rel].refCount == 1 then InFlight
    else Proceed
  }

  /** An image whose disk the library could not mount has reference count 1 and is not
      mounted, so every later attempt to mount it is taken for one in progress until it
      is unmounted. */
  lemma UnableToMountIsStuck(imageDir: string, images: map<string, ImageRow>, nextId: int, mountDir: string, rel: string)
    requires CatalogOk(imageDir, images, nextId) && rel in images && images[rel].status == UnableToMount
    requires mountDir != ""
    ensures MountGuard(mountDir, images, rel, true) == InFlight
  {
  }

  /** The library is called only for a readable, catalogued image that is neither
      mounted nor being mounted, and whose count is 0 in a sound catalog. */
  lemma ProceedOnlyWhenIdle(imageDir: string, images: map<string, ImageRow>, nextId: int, mountDir: string, rel: string, readable: bool)
    requires CatalogOk(imageDir, images, nextId)
    ensures MountGuard(mountDir, images, rel, readable) == Proceed <==>
      && mountDir != "" && rel in images && readable
      && images[rel].status == Unmounted && images[rel].refCount == 0
  {
    if mountDir != "" && rel in images && readable {
      assert RowOk(imageDir, rel, images[rel]);
    }
  }

  // ---------------------------------------------------------------------------
  // mount_image: the two attempts

  /** What the library does when `mount_image` constructs a parser: it raises, or it
      opens the image as `parser` describes. */
  datatype Attempt = LibraryFails | Opens(parser: Volumes.Parser)

  predicate AttemptSound(a: Attempt) {
    a.Opens? ==> Volumes.Sound(a.parser)
  }

  /** How the attempts end: an exception with the reference count it leaves behind, or
      a parser to store, with the duplicate volume group to raise afterwards. */
  datatype Plan =
    | Fail(error: MountError, refCount: int)
    | Store(parser: Volumes.Parser, reraise: Option<string>)

  /** The first attempt with the default disk mounter and, when it finds no mountable
      volume, the retry with `qemu-nbd`. Only a duplicate volume group from the first
      attempt is caught; from the retry it propagates like every other failure. */
  function MountPlan(first: Attempt, fallback: Attempt, keyGiven: bool): (plan: Plan)
    requires AttemptSound(first) && AttemptSound(fallback)
    ensures plan.Store? ==> Volumes.Sound(plan.parser)
  {
    if first.LibraryFails? then Fail(LibraryError, 1)
    else
      match Volumes.ProcessOutcome(first.parser)
      case UnexpectedDisk(c) => Fail(UnexpectedDiskError(c), 1)
      case DuplicateVolumeGroup(name) => Store(first.parser, Some(name))
      case Processed => Store(first.parser, None)
      case NoMountableVolumes =>
        if fallback.LibraryFails? then Fail(LibraryError, 1)
        else
          var p := fallback.parser;
          match Volumes.ProcessOutcome(p)
          case UnexpectedDisk(c) => Fail(UnexpectedDiskError(c), 1)
          case DuplicateVolumeGroup(name) => Fail(DuplicateVolumeGroupError(name), 1)
          case Processed => Store(p, None)
          case NoMountableVolumes =>
            if Volumes.AnyLuks(p.nodes, Volumes.FlatList(p)) then Fail(EncryptedImageError(keyGiven), 0)
            else Fail(NoMountableVolumesError, 0)
  }

  /** Both attempts found no mountable volume. */
  predicate BothFoundNothing(first: Attempt, fallback: Attempt)
    requires AttemptSound(first) && AttemptSound(fallback)
  {
    && first.Opens? && Volumes.ProcessOutcome(first.parser) == Volumes.NoMountableVolumes
    && fallback.Opens? && Volumes.ProcessOutcome(fallback.parser) == Volumes.NoMountableVolumes
  }

  /** The in-progress mark is taken back only when the retry finds no mountable volume
      either; every other failure leaves the count at 1. */
  lemma RollbackOnlyAfterRetry(first: Attempt, fallback: Attempt, keyGiven: bool)
    requires AttemptSound(first) && AttemptSound(fallback)
    ensures var plan := MountPlan(first, fallback, keyGiven);
      plan.Fail? ==> (plan.refCount == 0 <==> BothFoundNothing(first, fallback)) && plan.refCount in {0, 1}
  {
    var plan := MountPlan(first, fallback, keyGiven);
    if BothFoundNothing(first, fallback) {
      var p := fallback.parser;
      assert plan == if Volumes.AnyLuks(p.nodes, Volumes.FlatList(p)) then Fail(EncryptedImageError(keyGiven), 0)
                     else Fail(NoMountableVolumesError, 0);
    } else if first.Opens? && Volumes.ProcessOutcome(first.parser) == Volumes.NoMountableVolumes && fallback.Opens? {
      assert Volumes.ProcessOutcome(fallback.parser) != Volumes.NoMountableVolumes;
      assert plan.Fail? ==> plan.refCount == 1;
    } else {
      assert plan.Fail? ==> plan.refCount == 1;
    }
  }

  /** An encrypted volume is reported only when both attempts found nothing to mount and
      the retry lists a LUKS volume; the error says whether a key was given. */
  lemma EncryptedOnlyAfterRetry(first: Attempt, fallback: Attempt, keyGiven: bool)
    requires AttemptSound(first) && AttemptSound(fallback)
    ensures MountPlan(first, fallback, keyGiven).Fail? && MountPlan(first, fallback, keyGiven).error.EncryptedImageError? <==>
      BothFoundNothing(first, fallback) && Volumes.AnyLuks(fallback.parser.nodes, Volumes.FlatList(fallback.parser))
    ensures MountPlan(first, fallback, keyGiven).Fail? && MountPlan(first, fallback, keyGiven).error.EncryptedImageError? ==>
      MountPlan(first, fallback, keyGiven).error.keyGiven == keyGiven
    ensures BothFoundNothing(first, fallback) && !Volumes.AnyLuks(fallback.parser.nodes, Volumes.FlatList(fallback.parser)) ==>
      MountPlan(first, fallback, keyGiven) == Fail(NoMountableVolumesError, 0)
  {
    var plan := MountPlan(first, fallback, keyGiven);
    if BothFoundNothing(first, fallback) {
      var p := fallback.parser;
      assert plan == if Volumes.AnyLuks(p.nodes, Volumes.FlatList(p)) then Fail(EncryptedImageError(keyGiven), 0)
                     else Fail(NoMountableVolumesError, 0);
    } else if first.Opens? && Volumes.ProcessOutcome(first.parser) == Volumes.NoMountableVolumes && fallback.Opens? {
      assert Volumes.ProcessOutcome(fallback.parser) != Volumes.NoMountableVolumes;
      assert !plan.Fail? || !plan.error.EncryptedImageError?;
    } else {
      assert !plan.Fail? || !plan.error.EncryptedImageError?;
    }
  }

  /** Every other failure comes from the library, from an unexpected disk count, or from a
      duplicate volume group that the retry found after the first attempt found nothing. */
  lemma OtherFailures(first: Attempt, fallback: Attempt, keyGiven: bool)
    requires AttemptSound(first) && AttemptSound(fallback)
    ensures var plan := MountPlan(first, fallback, keyGiven);
      plan.Fail? && !BothFoundNothing(first, fallback) ==>
        plan.error.LibraryError? || plan.error.UnexpectedDiskError? || plan.error.DuplicateVolumeGroupError?
    ensures var plan := MountPlan(first, fallback, keyGiven);
      plan.Fail? && plan.error.DuplicateVolumeGroupError? ==>
        && first.Opens? && Volumes.ProcessOutcome(first.parser) == Volumes.NoMountableVolumes
        && fallback.Opens? && Volumes.ProcessOutcome(fallback.parser) == Volumes.DuplicateVolumeGroup(plan.error.vgName)
  {
    var plan := MountPlan(first, fallback, keyGiven);
    if BothFoundNothing(first, fallback) {
      var p := fallback.parser;
      assert plan == if Volumes.AnyLuks(p.nodes, Volumes.FlatList(p)) then Fail(EncryptedImageError(keyGiven), 0)
                     else Fail(NoMountableVolumesError, 0);
    }
  }

  /** A stored parser has one disk and came from the attempt that ended the sequence; a
      duplicate volume group is raised after storing only when the first attempt found it. */
  lemma StoredParserOrigin(first: Attempt, fallback: Attempt, keyGiven: bool)
    requires AttemptSound(first) && AttemptSound(fallback)
    ensures var plan := MountPlan(first, fallback, keyGiven);
      plan.Store? ==>
        && plan.parser.diskCount == 1
        && (plan.reraise.Some? <==> Volumes.ProcessOutcome(plan.parser).DuplicateVolumeGroup?)
        && (plan.reraise.Some? ==> first.Opens? && plan.parser == first.parser)
        && (plan.parser != first.parser ==> BothFoundNothing(first, fallback) == false && fallback.Opens? && plan.parser == fallback.parser)
  {
    var plan := MountPlan(first, fallback, keyGiven);
    if first.Opens? {
      var outcome := Volumes.ProcessOutcome(first.parser);
      if outcome != Volumes.NoMountableVolumes {
        assert plan.Store? ==> plan.parser == first.parser;
      } else if fallback.Opens? {
        var p := fallback.parser;
        assert plan.Store? ==> plan == Store(p, None) && Volumes.ProcessOutcome(p) == Volumes.Processed;
      }
    }
  }

  // ---------------------------------------------------------------------------
  // mount_image: what is stored

  function StoredDisk(p: Volumes.Parser): Disk
    requires Volumes.Sound(p)
  {
    Disk(p.diskMountpoint, p.nodes, Volumes.FlatList(p), Volumes.FlatIndex(p))
  }

  /** The image row after a parser is stored: mounted when the disk has a mountpoint,
      "unable to mount" otherwise. */
  function PersistedRow(row: ImageRow, p: Volumes.Parser): (r: ImageRow)
    requires Volumes.Sound(p)
    ensures r.id == row.id && r.fullPath == row.fullPath && r.fileName == row.fileName
  {
    row.(
      refCount := 1,
      mountpoint := p.diskMountpoint,
      status := if Volumes.Truthy(p.diskMountpoint) then Mounted else UnableToMount,
      parser := Some(StoredDisk(p)))
  }

  lemma PersistedRowOk(imageDir: string, rel: string, row: ImageRow, p: Volumes.Parser)
    requires RowOk(imageDir, rel, row) && Volumes.Sound(p)
    ensures RowOk(imageDir, rel, PersistedRow(row, p))
    ensures PersistedRow(row, p).status == Mounted <==> Volumes.Truthy(p.diskMountpoint)
    ensures PersistedRow(row, p).refCount == 1
  {
  }

  /** The `volumes` row written for volume `x` of the list. */
  function VolumeRowFor(diskId: int, nodes: seq<Volumes.VolumeNode>, x: nat, index: seq<int>): (r: VolumeRow)
    requires x < |nodes| && x < |index|
    ensures r.diskId == diskId && r.index == index[x]
    ensures r.status == Mounted <==> Volumes.Truthy(nodes[x].mountpoint)
    ensures r.status == Mounted || r.status == UnableToMount
    ensures Volumes.Truthy(nodes[x].mountpoint) ==> r.mountpoint == nodes[x].mountpoint
    ensures !Volumes.Truthy(nodes[x].mountpoint) ==> r.mountpoint.None?
  {
    var mp := nodes[x].mountpoint;
    if Volumes.Truthy(mp) then VolumeRow(diskId, index[x], Mounted, mp)
    else VolumeRow(diskId, index[x], UnableToMount, None)
  }

  predicate HasKey(vols: seq<VolumeRow>, diskId: int, index: int) {
    exists k :: 0 <= k < |vols| && vols[k].diskId == diskId && vols[k].index == index
  }

  /** The SELECT that decides between an UPDATE of every row with the same disk and
      partition index, and an INSERT of a new row. */
  function Upsert(vols: seq<VolumeRow>, r: VolumeRow): (res: seq<VolumeRow>)
    ensures |res| == |vols| || res == vols + [r]
    ensures forall k :: 0 <= k < |vols| && (vols[k].diskId != r.diskId || vols[k].index != r.index) ==> res[k] == vols[k]
    ensures forall k :: 0 <= k < |vols| ==> res[k].diskId == vols[k].diskId && res[k].index == vols[k].index
    ensures forall k :: |vols| <= k < |res| ==> res[k] == r
    ensures HasKey(vols, r.diskId, r.index) <==> |res| == |vols|
    ensures forall k :: 0 <= k < |vols| && vols[k].diskId == r.diskId && vols[k].index == r.index ==>
      res[k].status == r.status && res[k].mountpoint == r.mountpoint
  {
    if HasKey(vols, r.diskId, r.index) then
      seq(|vols|, k requires 0 <= k < |vols| =>
        if vols[k].diskId == r.diskId && vols[k].index == r.index
        then vols[k].(status := r.status, mountpoint := r.mountpoint)
        else vols[k])
    else vols + [r]
  }

  /** The volume rows after `mount_image` has written one row per entry of `list`. */
  function UpsertAll(vols: seq<VolumeRow>, diskId: int, nodes: seq<Volumes.VolumeNode>, list: seq<nat>, index: seq<int>): (res: seq<VolumeRow>)
    requires Volumes.Above(nodes, list, -1) && |index| == |nodes|
    ensures |vols| <= |res| <= |vols| + |list|
    ensures forall k :: 0 <= k < |vols| ==> res[k].diskId == vols[k].diskId && res[k].index == vols[k].index
    ensures forall k :: 0 <= k < |vols| && !Written(vols[k], diskId, list, index) ==> res[k] == vols[k]
  {
    if list == [] then vols
    else
      var x := list[|list| - 1];
      Upsert(UpsertAll(vols, diskId, nodes, list[..|list| - 1], index), VolumeRowFor(diskId, nodes, x, index))
  }

  /** Some entry of `list` writes under the key of row `v`. */
  predicate Written(v: VolumeRow, diskId: int, list: seq<nat>, index: seq<int>)
    requires forall i :: 0 <= i < |list| ==> list[i] < |index|
  {
    v.diskId == diskId && exists i :: 0 <= i < |list| && index[list[i]] == v.index
  }

  /** The rows of other disks are left where they were, untouched, and every new row
      belongs to the disk. */
  lemma {:induction false} UpsertAllOtherDisks(vols: seq<VolumeRow>, diskId: int, nodes: seq<Volumes.VolumeNode>, list: seq<nat>, index: seq<int>)
    requires Volumes.Above(nodes, list, -1) && |index| == |nodes|
    ensures forall k :: 0 <= k < |vols| && vols[k].diskId != diskId ==> UpsertAll(vols, diskId, nodes, list, index)[k] == vols[k]
    ensures forall k :: |vols| <= k < |UpsertAll(vols, diskId, nodes, list, index)| ==> UpsertAll(vols, diskId, nodes, list, index)[k].diskId == diskId
  {
    if list != [] {
      var before := UpsertAll(vols, diskId, nodes, list[..|list| - 1], index);
      UpsertAllOtherDisks(vols, diskId, nodes, list[..|list| - 1], index);
      var row := VolumeRowFor(diskId, nodes, list[|list| - 1], index);
      var res := UpsertAll(vols, diskId, nodes, list, index);
      assert res == Upsert(before, row);
      forall k | |vols| <= k < |res| ensures res[k].diskId == diskId {
        if k < |before| {
          assert res[k].diskId == before[k].diskId;
        } else {
          assert res[k] == row;
        }
      }
    }
  }

  /** Some row of `vols` carries the key, status and mountpoint of `r`. */
  predicate HasRow(vols: seq<VolumeRow>, r: VolumeRow) {
    exists k :: 0 <= k < |vols| && vols[k] == r
  }

  /** After the writes every listed volume has a row under its final index, holding
      the mountpoint of the volume written last under that index. */
  lemma {:induction false} UpsertAllCovers(vols: seq<VolumeRow>, diskId: int, nodes: seq<Volumes.VolumeNode>, list: seq<nat>, index: seq<int>, p: nat)
    requires Volumes.Above(nodes, list, -1) && |index| == |nodes| && p < |list|
    requires forall q :: p < q < |list| ==> index[list[q]] != index[list[p]]
    ensures HasRow(UpsertAll(vols, diskId, nodes, list, index), VolumeRowFor(diskId, nodes, list[p], index))
  {
    var init := list[..|list| - 1];
    var before := UpsertAll(vols, diskId, nodes, init, index);
    var row := VolumeRowFor(diskId, nodes, list[p], index);
    var res := UpsertAll(vols, diskId, nodes, list, index);
    if p == |list| - 1 {
      assert res == Upsert(before, row);
      if HasKey(before, diskId, row.index) {
        var k :| 0 <= k < |before| && before[k].diskId == diskId && before[k].index == row.index;
        assert res[k] == before[k].(status := row.status, mountpoint := row.mountpoint) == row;
      } else {
        assert res[|before|] == row;
      }
    } else {
      assert init[p] == list[p];
      forall q | p < q < |init| ensures index[init[q]] != index[init[p]] {
        assert init[q] == list[q];
      }
      UpsertAllCovers(vols, diskId, nodes, init, index, p);
      var k :| 0 <= k < |before| && before[k] == row;
      var last := VolumeRowFor(diskId, nodes, list[|list| - 1], index);
      assert res == Upsert(before, last);
      assert last.index == index[list[|list| - 1]] != index[list[p]];
      assert res[k] == before[k];
    }
  }

  // ---------------------------------------------------------------------------
  // unmount_image

  datatype UnmountStep = Release | NotMounted | Decrement

  /** The three outcomes of `unmount_image`, chosen by the reference count. */
  function UnmountDecision(refCount: int, force: bool): (step: UnmountStep)
    ensures step == Release <==> refCount == 1 || force
    ensures step == NotMounted <==> !force && refCount < 1
    ensures step == Decrement <==> !force && refCount > 1
  {
    if refCount == 1 || force then Release
    else if refCount < 1 then NotMounted
    else Decrement
  }

  /** The image row after a release. */
  function ResetRow(row: ImageRow): (r: ImageRow)
    ensures r.id == row.id && r.fullPath == row.fullPath && r.fileName == row.fileName
    ensures r.refCount == 0 && r.status == Unmounted && r.mountpoint.None? && r.parser.None?
  {
    row.(refCount := 0, mountpoint := None, status := Unmounted, parser := None)
  }

  /** The image row after `unmount_image`. */
  function AfterUnmount(row: ImageRow, force: bool): (r: ImageRow)
    ensures r.id == row.id && r.fullPath == row.fullPath && r.fileName == row.fileName
    ensures row.refCount >= 0 ==> 0 <= r.refCount <= row.refCount
    ensures r.status == Unmounted || r == row.(refCount := r.refCount)
  {
    match UnmountDecision(row.refCount, force)
    case Release => ResetRow(row)
    case NotMounted => row
    case Decrement => row.(refCount := row.refCount - 1)
  }

  /** `unmount_image` returns whether the image is no longer mounted. */
  function UnmountResult(row: ImageRow, force: bool): (b: bool)
    ensures b <==> AfterUnmount(row, force).refCount < 1
  {
    UnmountDecision(row.refCount, force) != Decrement
  }

  /** The volume rows of the disks in `deleteIds` are deleted and those of the disks in
      `nullIds` lose their mountpoint and become unmounted. */
  function ReleaseVolumes(vols: seq<VolumeRow>, nullIds: set<int>, deleteIds: set<int>): (res: seq<VolumeRow>)
    ensures |res| <= |vols|
    ensures forall k :: 0 <= k < |res| ==> res[k].diskId !in deleteIds
  {
    if vols == [] then []
    else
      var v := vols[0];
      var head := if v.diskId in deleteIds then []
        else if v.diskId in nullIds then [v.(mountpoint := None, status := Unmounted)]
        else [v];
      head + ReleaseVolumes(vols[1..], nullIds, deleteIds)
  }

  /** Releasing in two rounds is releasing once with both rounds' disks. */
  lemma {:induction false} ReleaseVolumesTwice(vols: seq<VolumeRow>, n1: set<int>, d1: set<int>, n2: set<int>, d2: set<int>)
    ensures ReleaseVolumes(ReleaseVolumes(vols, n1, d1), n2, d2) == ReleaseVolumes(vols, n1 + n2, d1 + d2)
  {
    if vols != [] {
      ReleaseVolumesTwice(vols[1..], n1, d1, n2, d2);
      var v := vols[0];
      var once := ReleaseVolumes(vols, n1, d1);
      var rest := ReleaseVolumes(vols[1..], n1, d1);
      if v.diskId in d1 {
        assert once == rest;
      } else {
        var h := if v.diskId in n1 then v.(mountpoint := None, status := Unmounted) else v;
        assert once == [h] + rest;
        assert once[1..] == rest;
      }
    }
  }

  /** Rows of disks outside both sets are kept, in order. */
  lemma {:induction false} ReleaseVolumesKeepsOthers(vols: seq<VolumeRow>, nullIds: set<int>, deleteIds: set<int>, diskId: int)
    requires diskId !in nullIds && diskId !in deleteIds
    ensures Only(ReleaseVolumes(vols, nullIds, deleteIds), diskId) == Only(vols, diskId)
  {
    if vols != [] {
      ReleaseVolumesKeepsOthers(vols[1..], nullIds, deleteIds, diskId);
      var v := vols[0];
      var head := if v.diskId in deleteIds then []
        else if v.diskId in nullIds then [v.(mountpoint := None, status := Unmounted)]
        else [v];
      OnlyConcat(head, ReleaseVolumes(vols[1..], nullIds, deleteIds), diskId);
      OnlyConcat([v], vols[1..], diskId);
      assert vols == [v] + vols[1..];
    }
  }

  lemma {:induction false} ReleaseNothing(vols: seq<VolumeRow>)
    ensures ReleaseVolumes(vols, {}, {}) == vols
  {
    if vols != [] {
      ReleaseNothing(vols[1..]);
      assert vols == [vols[0]] + vols[1..];
    }
  }

  /** A deleted disk has no volume row left; a nulled one keeps its rows, each
      unmounted and without a mountpoint. */
  lemma {:induction false} ReleasedDisk(vols: seq<VolumeRow>, nullIds: set<int>, deleteIds: set<int>, diskId: int)
    ensures diskId in deleteIds ==> Only(ReleaseVolumes(vols, nullIds, deleteIds), diskId) == []
    ensures diskId in nullIds && diskId !in deleteIds ==>
      |Only(ReleaseVolumes(vols, nullIds, deleteIds), diskId)| == |Only(vols, diskId)|
      && forall k :: 0 <= k < |Only(ReleaseVolumes(vols, nullIds, deleteIds), diskId)| ==>
           Only(ReleaseVolumes(vols, nullIds, deleteIds), diskId)[k] == Only(vols, diskId)[k].(mountpoint := None, status := Unmounted)
  {
    if vols != [] {
      ReleasedDisk(vols[1..], nullIds, deleteIds, diskId);
      var v := vols[0];
      var head := if v.diskId in deleteIds then []
        else if v.diskId in nullIds then [v.(mountpoint := None, status := Unmounted)]
        else [v];
      OnlyConcat(head, ReleaseVolumes(vols[1..], nullIds, deleteIds), diskId);
      OnlyConcat([v], vols[1..], diskId);
      assert vols == [v] + vols[1..];
    }
  }

  /** The rows of one disk, in order. */
  function Only(vols: seq<VolumeRow>, diskId: int): seq<VolumeRow> {
    if vols == [] then []
    else (if vols[0].diskId == diskId then [vols[0]] else []) + Only(vols[1..], diskId)
  }

  lemma {:induction false} OnlyConcat(a: seq<VolumeRow>, b: seq<VolumeRow>, diskId: int)
    ensures Only(a + b, diskId) == Only(a, diskId) + Only(b, diskId)
  {
    if a == [] {
      assert a + b == b;
    } else {
      var head := if a[0].diskId == diskId then [a[0]] else [];
      assert (a + b)[0] == a[0] && (a + b)[1..] == a[1..] + b;
      assert Only(a + b, diskId) == head + Only(a[1..] + b, diskId);
      OnlyConcat(a[1..], b, diskId);
      assert head + (Only(a[1..], diskId) + Only(b, diskId)) == (head + Only(a[1..], diskId)) + Only(b, diskId);
    }
  }

  /** The disks whose volume rows one `unmount_image` nulls, and those whose rows it deletes. */
  function NullIds(row: ImageRow, force: bool): (ids: set<int>)
    ensures ids <= {row.id}
    ensures row.id in ids <==> (row.refCount == 1 || force) && row.status == Mounted
  {
    if UnmountDecision(row.refCount, force) == Release && row.status == Mounted then {row.id} else {}
  }

  function DeleteIds(row: ImageRow, force: bool): (ids: set<int>)
    ensures ids <= {row.id} && ids !! NullIds(row, force)
    ensures row.id in ids <==> (row.refCount == 1 || force) && row.status == ManualMount
  {
    if UnmountDecision(row.refCount, force) == Release && row.status == ManualMount then {row.id} else {}
  }

  /** A release clears the image row whatever its state; the parser is cleaned only for a
      mounted image, and volume rows are nulled for a mounted image and deleted for a
      manual mount. A count above 1 without force is decremented and nothing else
      changes; a count below 1 without force changes nothing. */
  lemma UnmountOutcomes(row: ImageRow, force: bool)
    ensures UnmountResult(row, force) <==> (row.refCount <= 1 || force)
    ensures (row.refCount == 1 || force) ==>
      AfterUnmount(row, force) == ResetRow(row)
      && (row.id in NullIds(row, force) <==> row.status == Mounted)
      && (row.id in DeleteIds(row, force) <==> row.status == ManualMount)
    ensures !force && row.refCount < 1 ==>
      AfterUnmount(row, force) == row && NullIds(row, force) == {} && DeleteIds(row, force) == {}
    ensures !force && row.refCount > 1 ==>
      AfterUnmount(row, force).refCount == row.refCount - 1 && AfterUnmount(row, force).parser == row.parser
      && NullIds(row, force) == {} && DeleteIds(row, force) == {}
  {
  }

  /** An image whose disk could not be mounted keeps its volume rows through an
      unmount, although its stored parser is dropped without being cleaned. */
  lemma UnableToMountKeepsVolumeRows(row: ImageRow, force: bool)
    requires row.status == UnableToMount
    ensures NullIds(row, force) == {} && DeleteIds(row, force) == {}
  {
  }

  lemma AfterUnmountOk(imageDir: string, rel: string, row: ImageRow, force: bool)
    requires RowOk(imageDir, rel, row)
    ensures RowOk(imageDir, rel, AfterUnmount(row, force))
  {
  }

  // ---------------------------------------------------------------------------
  // unmount_all

  /** The rows `get_images(mounted=True)` returns: those with a positive count. */
  function MountedRels(images: map<string, ImageRow>): (rels: set<string>)
    ensures forall rel :: rel in rels <==> rel in images && images[rel].refCount > 0
  {
    set rel | rel in images && images[rel].refCount > 0
  }

  /** The image rows after `unmount_image` has run once on each of `rels`. */
  function UnmountRows(images: map<string, ImageRow>, rels: set<string>, force: bool): (res: map<string, ImageRow>)
    ensures res.Keys == images.Keys
  {
    map rel | rel in images :: if rel in rels then AfterUnmount(images[rel], force) else images[rel]
  }

  /** The disks among `rels` whose volume rows are nulled, deleted, and whose parser is cleaned. */
  function NullSet(images: map<string, ImageRow>, rels: set<string>, force: bool): set<int> {
    set rel | rel in rels && rel in images && images[rel].id in NullIds(images[rel], force) :: images[rel].id
  }

  function DeleteSet(images: map<string, ImageRow>, rels: set<string>, force: bool): set<int> {
    set rel | rel in rels && rel in images && images[rel].id in DeleteIds(images[rel], force) :: images[rel].id
  }

  function CleanSet(images: map<string, ImageRow>, rels: set<string>, force: bool): set<string> {
    set rel | rel in rels && rel in images && images[rel].id in NullIds(images[rel], force)
  }

  /** A forced `unmount_all` leaves every image of a sound catalog unmounted with count
      0, and cleans exactly the parsers of the images marked mounted. */
  lemma ForcedUnmountAllClears(imageDir: string, images: map<string, ImageRow>, nextId: int)
    requires CatalogOk(imageDir, images, nextId)
    ensures var res := UnmountRows(images, MountedRels(images), true);
      forall rel :: rel in res ==> res[rel].status == Unmounted && res[rel].refCount == 0 && res[rel].parser.None?
    ensures forall rel :: rel in CleanSet(images, MountedRels(images), true) <==> rel in images && images[rel].status == Mounted
  {
    var res := UnmountRows(images, MountedRels(images), true);
    forall rel | rel in res
      ensures res[rel].status == Unmounted && res[rel].refCount == 0 && res[rel].parser.None?
    {
      assert RowOk(imageDir, rel, images[rel]);
    }
    forall rel | rel in images && images[rel].status == Mounted
      ensures rel in CleanSet(images, MountedRels(images), true)
    {
      assert RowOk(imageDir, rel, images[rel]);
    }
  }

  /** Without force, `unmount_all` releases the images held once and only takes one
      reference from the others. */
  lemma UnmountAllWithoutForce(imageDir: string, images: map<string, ImageRow>, nextId: int, rel: string)
    requires CatalogOk(imageDir, images, nextId) && rel in images
    ensures var res := UnmountRows(images, MountedRels(images), false);
      && (images[rel].refCount <= 1 ==> res[rel].status == Unmounted && res[rel].refCount == 0)
      && (images[rel].refCount > 1 ==> res[rel] == images[rel].(refCount := images[rel].refCount - 1))
  {
    assert RowOk(imageDir, rel, images[rel]);
  }

  lemma UnmountRowsAdd(images: map<string, ImageRow>, done: set<string>, rel: string, force: bool)
    requires rel in images && rel !in done
    ensures UnmountRows(images, done, force)[rel := AfterUnmount(images[rel], force)] == UnmountRows(images, done + {rel}, force)
  {
  }

  lemma MoveToDone(snapshot: set<string>, todo: set<string>, rel: string)
    requires rel in todo && todo <= snapshot
    ensures snapshot - (todo - {rel}) == (snapshot - todo) + {rel}
    ensures rel !in snapshot - todo
  {
  }

  /** One round of the `unmount_all` loop, on an image not yet visited. */
  lemma UnmountAllStep(images: map<string, ImageRow>, vols: seq<VolumeRow>, cleaned: multiset<string>,
                       done: set<string>, rel: string, force: bool)
    requires rel in images && rel !in done
    ensures var now := UnmountRows(images, done, force);
      && now[rel] == images[rel]
      && now[rel := AfterUnmount(now[rel], force)] == UnmountRows(images, done + {rel}, force)
      && ReleaseVolumes(ReleaseVolumes(vols, NullSet(images, done, force), DeleteSet(images, done, force)),
                        NullIds(now[rel], force), DeleteIds(now[rel], force))
         == ReleaseVolumes(vols, NullSet(images, done + {rel}, force), DeleteSet(images, done + {rel}, force))
      && cleaned + multiset(CleanSet(images, done, force))
           + (if now[rel].id in NullIds(now[rel], force) then multiset{rel} else multiset{})
         == cleaned + multiset(CleanSet(images, done + {rel}, force))
  {
    UnmountRowsAdd(images, done, rel, force);
    NullSetAdd(images, done, rel, force);
    ReleaseVolumesTwice(vols, NullSet(images, done, force), DeleteSet(images, done, force),
                        NullIds(images[rel], force), DeleteIds(images[rel], force));
  }

  lemma NullSetAdd(images: map<string, ImageRow>, done: set<string>, rel: string, force: bool)
    requires rel in images
    ensures NullSet(images, done + {rel}, force) == NullSet(images, done, force) + NullIds(images[rel], force)
    ensures DeleteSet(images, done + {rel}, force) == DeleteSet(images, done, force) + DeleteIds(images[rel], force)
    ensures CleanSet(images, done + {rel}, force) ==
      CleanSet(images, done, force) + (if images[rel].id in NullIds(images[rel], force) then {rel} else {})
  {
  }

  // ---------------------------------------------------------------------------
  // insert_image, remove_image, monitor_image_dir

  /** The `disk_images` table and the next row id it hands out. */
  datatype Registry = Registry(images: map<string, ImageRow>, nextId: int)

  /** A regular file or other entry `os.walk` lists under the image directory, with what
      `check_ignored` learns about it from the file system. */
  datatype WalkEntry = WalkEntry(rel: string, isFile: bool, ctx: IgnoreFilter.Context)

  predicate Ignored(imageDir: string, e: WalkEntry) {
    IgnoreFilter.CheckIgnored(FullPath(imageDir, e.rel), e.ctx)
  }

  /** The file name starts with a dot. */
  predicate Hidden(imageDir: string, rel: string) {
    var name := Text.FileName(FullPath(imageDir, rel));
    |name| > 0 && name[0] == '.'
  }

  /** An entry `monitor_image_dir` hands to `insert_image`. */
  predicate Eligible(imageDir: string, e: WalkEntry) {
    !Ignored(imageDir, e) && !Hidden(imageDir, e.rel) && e.isFile
  }

  /** The row `insert_image` writes: unmounted, count 0, no mountpoint and no parser. */
  function NewRow(imageDir: string, rel: string, id: int): (row: ImageRow)
    ensures RowOk(imageDir, rel, row) && row.id == id && row.status == Unmounted && row.refCount == 0
    ensures row.fileName == Text.FileName(row.fullPath)
  {
    var full := FullPath(imageDir, rel);
    ImageRow(id, full, Text.FileName(full), Unmounted, None, 0, None)
  }

  function Insert(imageDir: string, reg: Registry, rel: string): (res: Registry)
    ensures res.images.Keys == reg.images.Keys + {rel}
    ensures forall o :: o in reg.images ==> res.images[o] == reg.images[o]
    ensures rel in reg.images ==> res.nextId == reg.nextId
    ensures rel !in reg.images ==> res.nextId == reg.nextId + 1 && res.images[rel] == NewRow(imageDir, rel, reg.nextId)
  {
    if rel in reg.images then reg
    else Registry(reg.images[rel := NewRow(imageDir, rel, reg.nextId)], reg.nextId + 1)
  }

  function Remove(reg: Registry, rel: string): (res: Registry)
    ensures res.images.Keys == reg.images.Keys - {rel}
    ensures forall o :: o in res.images ==> res.images[o] == reg.images[o]
    ensures res.nextId == reg.nextId
  {
    reg.(images := reg.images - {rel})
  }

  /** Inserting an image again changes nothing, and removing it afterwards leaves the
      catalog as it was when the image was not catalogued before. */
  lemma InsertRemove(imageDir: string, reg: Registry, rel: string)
    ensures Insert(imageDir, Insert(imageDir, reg, rel), rel) == Insert(imageDir, reg, rel)
    ensures rel in Insert(imageDir, reg, rel).images
    ensures rel !in reg.images ==> Remove(Insert(imageDir, reg, rel), rel).images == reg.images
  {
    if rel !in reg.images {
      assert Remove(Insert(imageDir, reg, rel), rel).images == reg.images;
    }
  }

  lemma InsertRemoveKeepOk(imageDir: string, reg: Registry, rel: string)
    requires CatalogOk(imageDir, reg.images, reg.nextId)
    ensures CatalogOk(imageDir, Insert(imageDir, reg, rel).images, Insert(imageDir, reg, rel).nextId)
    ensures CatalogOk(imageDir, Remove(reg, rel).images, Remove(reg, rel).nextId)
  {
    var ins := Insert(imageDir, reg, rel);
    forall o | o in ins.images
      ensures RowOk(imageDir, o, ins.images[o]) && ins.images[o].id < ins.nextId
    {
      if o in reg.images {
        assert ins.images[o] == reg.images[o];
      } else {
        assert o == rel && ins.images[o] == NewRow(imageDir, rel, reg.nextId);
      }
    }
    var rem := Remove(reg, rel);
    forall o | o in rem.images
      ensures RowOk(imageDir, o, rem.images[o]) && rem.images[o].id < rem.nextId
    {
      assert o in reg.images && rem.images[o] == reg.images[o];
    }
  }

  function WalkStep(imageDir: string, reg: Registry, e: WalkEntry): (res: Registry)
    ensures forall rel :: rel != e.rel ==> (rel in res.images <==> rel in reg.images)
    ensures forall rel :: rel != e.rel && rel in reg.images ==> res.images[rel] == reg.images[rel]
    ensures res.nextId >= reg.nextId
  {
    if Ignored(imageDir, e) then Remove(reg, e.rel)
    else if !Hidden(imageDir, e.rel) && e.isFile then Insert(imageDir, reg, e.rel)
    else reg
  }

  /** What one step does to the entry it visits. */
  lemma WalkStepFate(imageDir: string, reg: Registry, e: WalkEntry)
    ensures Ignored(imageDir, e) ==> e.rel !in WalkStep(imageDir, reg, e).images
    ensures Eligible(imageDir, e) ==> e.rel in WalkStep(imageDir, reg, e).images
    ensures e.rel in reg.images && !Ignored(imageDir, e) ==> WalkStep(imageDir, reg, e).images[e.rel] == reg.images[e.rel]
    ensures !Ignored(imageDir, e) && !Eligible(imageDir, e) ==> WalkStep(imageDir, reg, e) == reg
  {
  }

  /** The registry after the walk loop of `monitor_image_dir`. */
  function Walk(imageDir: string, reg: Registry, entries: seq<WalkEntry>): (res: Registry)
    ensures res.nextId >= reg.nextId
  {
    if entries == [] then reg
    else WalkStep(imageDir, Walk(imageDir, reg, entries[..|entries| - 1]), entries[|entries| - 1])
  }

  function Rels(entries: seq<WalkEntry>): set<string> {
    set k | 0 <= k < |entries| :: entries[k].rel
  }

  /** The full paths the walk lists, in order. */
  function WalkedPaths(imageDir: string, entries: seq<WalkEntry>): (paths: seq<string>)
    ensures |paths| == |entries|
    ensures forall k :: 0 <= k < |entries| ==> paths[k] == FullPath(imageDir, entries[k].rel)
  {
    seq(|entries|, k requires 0 <= k < |entries| => FullPath(imageDir, entries[k].rel))
  }

  /** The second loop of `monitor_image_dir`: rows whose full path the walk did not list
      are deleted. */
  lemma WalkedPathsSnoc(imageDir: string, entries: seq<WalkEntry>, i: nat)
    requires i < |entries|
    ensures WalkedPaths(imageDir, entries[..i + 1]) == WalkedPaths(imageDir, entries[..i]) + [FullPath(imageDir, entries[i].rel)]
  {
  }

  function Prune(images: map<string, ImageRow>, walked: seq<string>): (res: map<string, ImageRow>)
    ensures forall rel :: rel in res <==> rel in images && images[rel].fullPath in walked
    ensures forall rel :: rel in res ==> res[rel] == images[rel]
  {
    map rel | rel in images && images[rel].fullPath in walked :: images[rel]
  }

  predicate DistinctRels(entries: seq<WalkEntry>) {
    forall i, j :: 0 <= i < j < |entries| ==> entries[i].rel != entries[j].rel
  }

  lemma {:induction false} WalkKeepsOk(imageDir: string, reg: Registry, entries: seq<WalkEntry>)
    requires CatalogOk(imageDir, reg.images, reg.nextId)
    ensures CatalogOk(imageDir, Walk(imageDir, reg, entries).images, Walk(imageDir, reg, entries).nextId)
  {
    if entries != [] {
      var before := Walk(imageDir, reg, entries[..|entries| - 1]);
      WalkKeepsOk(imageDir, reg, entries[..|entries| - 1]);
      InsertRemoveKeepOk(imageDir, before, entries[|entries| - 1].rel);
    }
  }

  /** A path the walk does not list keeps its row, or its absence of one. */
  lemma {:induction false} WalkUntouched(imageDir: string, reg: Registry, entries: seq<WalkEntry>, rel: string)
    requires rel !in Rels(entries)
    ensures rel in Walk(imageDir, reg, entries).images <==> rel in reg.images
    ensures rel in reg.images ==> Walk(imageDir, reg, entries).images[rel] == reg.images[rel]
  {
    if entries != [] {
      var init := entries[..|entries| - 1];
      assert Rels(init) <= Rels(entries) by {
        forall r | r in Rels(init) ensures r in Rels(entries) {
          var k :| 0 <= k < |init| && init[k].rel == r;
          assert entries[k].rel == r;
        }
      }
      assert entries[|entries| - 1].rel in Rels(entries);
      WalkUntouched(imageDir, reg, init, rel);
    }
  }

  /** For a walk that lists each path once: an ignored entry loses its row, an eligible
      one has a row, the one it had before if it was catalogued, and any other entry
      keeps its row, or its absence of one. */
  lemma WalkFate(imageDir: string, reg: Registry, entries: seq<WalkEntry>, p: nat)
    requires DistinctRels(entries) && p < |entries|
    ensures var e := entries[p]; var res := Walk(imageDir, reg, entries).images;
      && (Ignored(imageDir, e) ==> e.rel !in res)
      && (Eligible(imageDir, e) ==> e.rel in res && (e.rel in reg.images ==> res[e.rel] == reg.images[e.rel]))
      && (!Ignored(imageDir, e) && !Eligible(imageDir, e) ==>
            (e.rel in res <==> e.rel in reg.images) && (e.rel in reg.images ==> res[e.rel] == reg.images[e.rel]))
  {
    WalkEntryFate(imageDir, reg, entries, p);
    WalkStepFate(imageDir, reg, entries[p]);
  }

  /** The walk does to a listed path what that path's own step does to the catalog it
      starts from, except for the id a new row gets. */
  lemma {:induction false} WalkEntryFate(imageDir: string, reg: Registry, entries: seq<WalkEntry>, p: nat)
    requires DistinctRels(entries) && p < |entries|
    ensures entries[p].rel in Walk(imageDir, reg, entries).images <==> entries[p].rel in WalkStep(imageDir, reg, entries[p]).images
    ensures entries[p].rel in Walk(imageDir, reg, entries).images && entries[p].rel in reg.images ==>
      Walk(imageDir, reg, entries).images[entries[p].rel] == reg.images[entries[p].rel]
  {
    if p == |entries| - 1 {
      WalkLastFate(imageDir, reg, entries);
    } else {
      var init := entries[..|entries| - 1];
      var e := entries[p];
      var last := entries[|entries| - 1];
      assert Walk(imageDir, reg, entries) == WalkStep(imageDir, Walk(imageDir, reg, init), last);
      assert init[p] == e;
      assert DistinctRels(init) by {
        forall i, j | 0 <= i < j < |init| ensures init[i].rel != init[j].rel {
          assert init[i] == entries[i] && init[j] == entries[j];
        }
      }
      WalkEntryFate(imageDir, reg, init, p);
      assert last.rel != e.rel;
    }
  }

  /** `WalkEntryFate` for the path listed last. */
  lemma WalkLastFate(imageDir: string, reg: Registry, entries: seq<WalkEntry>)
    requires DistinctRels(entries) && entries != []
    ensures var e := entries[|entries| - 1];
      e.rel in Walk(imageDir, reg, entries).images <==> e.rel in WalkStep(imageDir, reg, e).images
    ensures var e := entries[|entries| - 1];
      e.rel in Walk(imageDir, reg, entries).images && e.rel in reg.images ==>
      Walk(imageDir, reg, entries).images[e.rel] == reg.images[e.rel]
  {
    var init := entries[..|entries| - 1];
    var e := entries[|entries| - 1];
    var before := Walk(imageDir, reg, init);
    assert Walk(imageDir, reg, entries) == WalkStep(imageDir, before, e);
    assert e.rel !in Rels(init);
    WalkUntouched(imageDir, reg, init, e.rel);
    WalkStepAgrees(imageDir, before, reg, e);
  }

  /** Two catalogs that agree on a path still agree on it after that path's step, up to
      the id of a new row. */
  lemma WalkStepAgrees(imageDir: string, a: Registry, b: Registry, e: WalkEntry)
    requires e.rel in a.images <==> e.rel in b.images
    requires e.rel in b.images ==> a.images[e.rel] == b.images[e.rel]
    ensures e.rel in WalkStep(imageDir, a, e).images <==> e.rel in WalkStep(imageDir, b, e).images
    ensures e.rel in WalkStep(imageDir, a, e).images && e.rel in b.images ==>
      WalkStep(imageDir, a, e).images[e.rel] == b.images[e.rel]
  {
  }


  /** After `monitor_image_dir` every catalogued image was listed by the walk. */
  lemma MonitorOnlyKeepsListed(imageDir: string, reg: Registry, entries: seq<WalkEntry>, rel: string)
    requires CatalogOk(imageDir, reg.images, reg.nextId)
    ensures var after := Prune(Walk(imageDir, reg, entries).images, WalkedPaths(imageDir, entries));
      rel in after ==> rel in Rels(entries)
  {
    var walked := Walk(imageDir, reg, entries).images;
    WalkKeepsOk(imageDir, reg, entries);
    if rel in walked && walked[rel].fullPath in WalkedPaths(imageDir, entries) {
      assert RowOk(imageDir, rel, walked[rel]);
      var k :| 0 <= k < |entries| && FullPath(imageDir, entries[k].rel) == walked[rel].fullPath;
      FullPathInjective(imageDir, entries[k].rel, rel);
    }
  }

  /** Listed paths survive the second loop, so after `monitor_image_dir` an eligible
      entry is catalogued and an ignored one is not. */
  lemma MonitorFate(imageDir: string, reg: Registry, entries: seq<WalkEntry>, p: nat)
    requires CatalogOk(imageDir, reg.images, reg.nextId)
    requires DistinctRels(entries) && p < |entries|
    ensures var after := Prune(Walk(imageDir, reg, entries).images, WalkedPaths(imageDir, entries));
      && (Eligible(imageDir, entries[p]) ==> entries[p].rel in after)
      && (Ignored(imageDir, entries[p]) ==> entries[p].rel !in after)
  {
    var walked := Walk(imageDir, reg, entries).images;
    WalkFate(imageDir, reg, entries, p);
    WalkKeepsOk(imageDir, reg, entries);
    var rel := entries[p].rel;
    if rel in walked {
      assert RowOk(imageDir, rel, walked[rel]);
      assert walked[rel].fullPath in WalkedPaths(imageDir, entries);
    }
  }

  // ---------------------------------------------------------------------------
  // add_mountpoint

  /** The image row after `add_mountpoint`: a manual mount held once, whatever the row
      was before. */
  function ManualRow(row: ImageRow, mp: string): (r: ImageRow)
    ensures r.id == row.id && r.fullPath == row.fullPath && r.fileName == row.fileName
  {
    row.(refCount := 1, mountpoint := Some(mp), status := ManualMount, parser := Some(ManualDisk(mp)))
  }

  /** The `volumes` row `add_mountpoint` inserts: partition index 0, manually mounted. */
  function ManualVolume(diskId: int, mp: string): VolumeRow {
    VolumeRow(diskId, 0, ManualMount, Some(mp))
  }

  /** A manual mount replaces whatever the row held: an image mounted by the library
      loses its other references and its stored parser, which is never cleaned. */
  lemma ManualRowOverrides(imageDir: string, rel: string, row: ImageRow, mp: string)
    requires RowOk(imageDir, rel, row)
    ensures RowOk(imageDir, rel, ManualRow(row, mp))
    ensures ManualRow(row, mp).refCount == 1 && ManualRow(row, mp).status == ManualMount
    ensures ManualRow(row, mp).parser == Some(ManualDisk(mp)) && ManualRow(row, mp).mountpoint == Some(mp)
  {
  }

  /** `add_mountpoint` never replaces a volume row of the disk: the rows it adds pile up,
      one per call, each with partition index 0. */
  lemma ManualVolumesAccumulate(vols: seq<VolumeRow>, diskId: int, mp: string)
    ensures Only(vols + [ManualVolume(diskId, mp)], diskId) == Only(vols, diskId) + [ManualVolume(diskId, mp)]
    ensures forall other :: other != diskId ==> Only(vols + [ManualVolume(diskId, mp)], other) == Only(vols, other)
  {
    OnlyConcat(vols, [ManualVolume(diskId, mp)], diskId);
    forall other | other != diskId
      ensures Only(vols + [ManualVolume(diskId, mp)], other) == Only(vols, other)
    {
      OnlyConcat(vols, [ManualVolume(diskId, mp)], other);
      assert Only([ManualVolume(diskId, mp)], other) == [];
    }
  }

  // ---------------------------------------------------------------------------
  // The database

  /** The error a refusing guard raises. */
  function GuardError(g: Guard): (e: MountError)
    requires g != AlreadyMounted && g != Proceed
    ensures e in {NotADirectoryError, ImageNotInDatabaseError, PermissionError, DuplicateMountAttemptError}
  {
    match g
    case NoMountDir => NotADirectoryError
    case NotCatalogued => ImageNotInDatabaseError
    case Unreadable => PermissionError
    case InFlight => DuplicateMountAttemptError
  }

  /** Each refusing guard raises its own exception. */
  lemma GuardErrorDistinct(g: Guard, h: Guard)
    requires g != AlreadyMounted && g != Proceed && h != AlreadyMounted && h != Proceed
    ensures GuardError(g) == GuardError(h) ==> g == h
  {
  }

  /** The SQLite database of the application together with the configured image and mount
      directories. */
  class ImageDatabase {
    const imageDir: string
    const mountDir: string
    var images: map<string, ImageRow>
    var volumes: seq<VolumeRow>
    var nextId: int
    /** The images whose stored parser `unmount_image` has cleaned, with repetitions. */
    ghost var cleaned: multiset<string>

    ghost predicate Valid()
      reads this
    {
      CatalogOk(imageDir, images, nextId)
    }

    constructor (imageDir: string, mountDir: string)
      ensures Valid() && this.imageDir == imageDir && this.mountDir == mountDir
      ensures images == map[] && volumes == [] && cleaned == multiset{}
    {
      this.imageDir := imageDir;
      this.mountDir := mountDir;
      images := map[];
      volumes := [];
      nextId := 1;
      cleaned := multiset{};
    }

    /** Constructs a parser as `a` describes and runs `process_image_parser` on it; `null`
        when the library raises. */
    method OpenAndProcess(a: Attempt) returns (ip: Volumes.ImageParser?, outcome: Volumes.Outcome)
      requires AttemptSound(a)
      ensures a.LibraryFails? <==> ip == null
      ensures ip != null ==>
        && fresh(ip) && ip.Valid() && outcome == Volumes.ProcessOutcome(a.parser)
        && ip.nodes == a.parser.nodes
        && (a.parser.diskCount == 1 ==> ip.volumes == Volumes.FlatList(a.parser) && ip.index == Volumes.FlatIndex(a.parser))
    {
      if a.LibraryFails? {
        return null, Volumes.Processed;
      }
      ip := new Volumes.ImageParser(a.parser);
      outcome := ip.ProcessImageParser();
    }

    /** The loop of `mount_image` over the stored disk's volumes that looks for a LUKS
        container. */
    method FindLuks(ip: Volumes.ImageParser) returns (found: bool)
      requires ip.Valid()
      ensures found == Volumes.AnyLuks(ip.nodes, ip.volumes)
    {
      var i := 0;
      while i < |ip.volumes|
        invariant 0 <= i <= |ip.volumes|
        invariant forall j :: 0 <= j < i ==> !ip.nodes[ip.volumes[j]].luks
      {
        if ip.nodes[ip.volumes[i]].luks {
          return true;
        }
        i := i + 1;
      }
      return false;
    }

    /** The loop of `mount_image` that writes one `volumes` row per listed volume. */
    method UpsertVolumes(diskId: int, nodes: seq<Volumes.VolumeNode>, list: seq<nat>, index: seq<int>)
      requires Volumes.Above(nodes, list, -1) && |index| == |nodes|
      modifies this
      ensures volumes == UpsertAll(old(volumes), diskId, nodes, list, index)
      ensures images == old(images) && nextId == old(nextId) && cleaned == old(cleaned)
    {
      for i := 0 to |list|
        invariant volumes == UpsertAll(old(volumes), diskId, nodes, list[..i], index)
        invariant images == old(images) && nextId == old(nextId) && cleaned == old(cleaned)
      {
        assert list[..i + 1][..i] == list[..i];
        volumes := Upsert(volumes, VolumeRowFor(diskId, nodes, list[i], index));
      }
      assert list[..|list|] == list;
    }

    /** An `UPDATE disk_images ... WHERE rel_path = ?` on a catalogued image. */
    method SetRow(rel: string, row: ImageRow)
      requires Valid() && rel in images && row.id == images[rel].id && RowOk(imageDir, rel, row)
      modifies this
      ensures Valid() && images == old(images)[rel := row]
      ensures volumes == old(volumes) && nextId == old(nextId) && cleaned == old(cleaned)
    {
      assert CatalogOk(imageDir, images[rel := row], nextId) by {
        UpdateKeepsCatalogOk(imageDir, images, nextId, rel, row);
      }
      images := images[rel := row];
    }

    /** The two attempts of `mount_image`: the default disk mounter, then `qemu-nbd` when
        the first finds no mountable volume, and the LUKS check when the retry finds none
        either. On success the parser that is to be stored comes back with the plan. */
    method MountAttempts(first: Attempt, fallback: Attempt, keyGiven: bool) returns (plan: Plan, ip: Volumes.ImageParser?)
      requires AttemptSound(first) && AttemptSound(fallback)
      ensures plan == MountPlan(first, fallback, keyGiven)
      ensures plan.Fail? ==> plan.refCount == 0 || plan.refCount == 1
      ensures plan.Store? ==> Volumes.Sound(plan.parser)
      ensures plan.Store? ==>
        && ip != null && ip.Valid() && ip.nodes == plan.parser.nodes
        && ip.volumes == Volumes.FlatList(plan.parser) && ip.index == Volumes.FlatIndex(plan.parser)
    {
      var outcome;
      ip, outcome := OpenAndProcess(first);
      if ip == null {
        return Fail(LibraryError, 1), null;
      }
      match outcome {
        case UnexpectedDisk(c) =>
          plan := Fail(UnexpectedDiskError(c), 1);
        case DuplicateVolumeGroup(name) =>
          plan := Store(first.parser, Some(name));
        case Processed =>
          plan := Store(first.parser, None);
        case NoMountableVolumes =>
          var outcome2;
          ip, outcome2 := OpenAndProcess(fallback);
          if ip == null {
            return Fail(LibraryError, 1), null;
          }
          match outcome2 {
            case UnexpectedDisk(c) =>
              plan := Fail(UnexpectedDiskError(c), 1);
            case DuplicateVolumeGroup(name) =>
              plan := Fail(DuplicateVolumeGroupError(name), 1);
            case Processed =>
              plan := Store(fallback.parser, None);
            case NoMountableVolumes =>
              var luks := FindLuks(ip);
              if luks {
                plan := Fail(EncryptedImageError(keyGiven), 0);
              } else {
                plan := Fail(NoMountableVolumesError, 0);
              }
          }
      }
    }

    /** `increment_ref_count` on a mounted image, which `mount_image` then returns. */
    method AddReference(rel: string) returns (r: Result<Disk, MountError>)
      requires Valid() && rel in images && (images[rel].status == Mounted || images[rel].status == ManualMount)
      modifies this
      ensures Valid() && nextId == old(nextId) && cleaned == old(cleaned) && volumes == old(volumes)
      ensures images == old(images)[rel := old(images)[rel].(refCount := old(images)[rel].refCount + 1)]
      ensures r == Ok(old(images)[rel].parser.value)
    {
      var row := images[rel];
      assert RowOk(imageDir, rel, row);
      RecountOk(imageDir, rel, row, row.refCount + 1);
      SetRow(rel, row.(refCount := row.refCount + 1));
      return Ok(row.parser.value);
    }

    /** The part of `mount_image` after the guards: the image is marked as being mounted,
        the library is called and its answer is stored. */
    method Attach(rel: string, keyGiven: bool, first: Attempt, fallback: Attempt) returns (r: Result<Disk, MountError>)
      requires Valid() && AttemptSound(first) && AttemptSound(fallback)
      requires rel in images && images[rel].status == Unmounted
      modifies this
      ensures Valid() && nextId == old(nextId) && cleaned == old(cleaned)
      ensures MountStored(old(images), old(volumes), rel, MountPlan(first, fallback, keyGiven), r, images, volumes)
    {
      var row := images[rel];
      assert RowOk(imageDir, rel, row);
      RecountOk(imageDir, rel, row, 1);
      SetRow(rel, row.(refCount := 1));
      var plan, ip := MountAttempts(first, fallback, keyGiven);
      if plan.Fail? {
        RecountOk(imageDir, rel, row, plan.refCount);
        UpdateTwice(old(images), rel, row.(refCount := 1), row.(refCount := plan.refCount));
        SetRow(rel, row.(refCount := plan.refCount));
        return Err(plan.error);
      }
      PersistedRowOk(imageDir, rel, row, plan.parser);
      UpdateTwice(old(images), rel, row.(refCount := 1), PersistedRow(row, plan.parser));
      SetRow(rel, PersistedRow(row, plan.parser));
      UpsertVolumes(row.id, ip.nodes, ip.volumes, ip.index);
      if plan.reraise.Some? {
        return Err(DuplicateVolumeGroupError(plan.reraise.value));
      }
      return Ok(StoredDisk(plan.parser));
    }

    /** `mount_image`. The file system's answer to `os.access` is `readable`; the library's
        answers to the two constructions are `first` and `fallback`. */
    method MountImage(rel: string, creds: Option<Credentials.KeyArg>, readable: bool, first: Attempt, fallback: Attempt)
      returns (r: Result<Disk, MountError>)
      requires Valid() && AttemptSound(first) && AttemptSound(fallback)
      modifies this
      ensures Valid() && nextId == old(nextId) && cleaned == old(cleaned)
      ensures MountGuard(mountDir, old(images), rel, readable) !in {AlreadyMounted, Proceed} ==>
        && r == Err(GuardError(MountGuard(mountDir, old(images), rel, readable)))
        && images == old(images) && volumes == old(volumes)
      ensures MountGuard(mountDir, old(images), rel, readable) == AlreadyMounted ==>
        && r == Ok(old(images)[rel].parser.value)
        && images == old(images)[rel := old(images)[rel].(refCount := old(images)[rel].refCount + 1)]
        && volumes == old(volumes)
      ensures MountGuard(mountDir, old(images), rel, readable) == Proceed ==>
        MountStored(old(images), old(volumes), rel, MountPlan(first, fallback, creds.Some?), r, images, volumes)
    {
      if mountDir == "" {
        return Err(NotADirectoryError);
      }
      if rel !in images {
        return Err(ImageNotInDatabaseError);
      }
      if !readable {
        return Err(PermissionError);
      }
      var row := images[rel];
      if row.status == Mounted || row.status == ManualMount {
        r := AddReference(rel);
        return;
      }
      if row.refCount == 1 {
        return Err(DuplicateMountAttemptError);
      }
      r := Attach(rel, creds.Some?, first, fallback);
    }

    /** `add_mountpoint`. `libraryOk` says whether the library could open the image and
        found a first disk in it. */
    method AddMountpoint(rel: string, mp: string, libraryOk: bool) returns (r: Result<string, MountError>)
      requires Valid()
      modifies this
      ensures Valid() && nextId == old(nextId) && cleaned == old(cleaned)
      ensures !libraryOk ==> r == Err(LibraryError) && images == old(images) && volumes == old(volumes)
      ensures libraryOk && rel !in old(images) ==> r == Err(MissingRowError) && images == old(images) && volumes == old(volumes)
      ensures libraryOk && rel in old(images) ==>
        && r == Ok(mp)
        && images == old(images)[rel := ManualRow(old(images)[rel], mp)]
        && volumes == old(volumes) + [ManualVolume(old(images)[rel].id, mp)]
    {
      if !libraryOk {
        return Err(LibraryError);
      }
      if rel !in images {
        return Err(MissingRowError);
      }
      var row := images[rel];
      ManualRowOverrides(imageDir, rel, row, mp);
      SetRow(rel, ManualRow(row, mp));
      volumes := volumes + [ManualVolume(row.id, mp)];
      return Ok(mp);
    }

    /** `unmount_image`. */
    method UnmountImage(rel: string, force: bool) returns (r: Result<bool, MountError>)
      requires Valid()
      modifies this
      ensures Valid() && nextId == old(nextId)
      ensures rel !in old(images) ==>
        r == Err(MissingRowError) && images == old(images) && volumes == old(volumes) && cleaned == old(cleaned)
      ensures rel in old(images) ==>
        && r == Ok(UnmountResult(old(images)[rel], force))
        && images == old(images)[rel := AfterUnmount(old(images)[rel], force)]
        && volumes == ReleaseVolumes(old(volumes), NullIds(old(images)[rel], force), DeleteIds(old(images)[rel], force))
        && cleaned == old(cleaned) + (if old(images)[rel].id in NullIds(old(images)[rel], force) then multiset{rel} else multiset{})
    {
      if rel !in images {
        return Err(MissingRowError);
      }
      var row := images[rel];
      assert RowOk(imageDir, rel, row);
      if row.refCount == 1 || force {
        if row.status == Mounted {
          cleaned := cleaned + multiset{rel};
        }
        SetRow(rel, ResetRow(row));
        if row.status == Mounted || row.status == ManualMount {
          volumes := ReleaseVolumes(volumes, NullIds(row, force), DeleteIds(row, force));
        } else {
          ReleaseNothing(volumes);
        }
        return Ok(true);
      } else if row.refCount < 1 {
        ReleaseNothing(volumes);
        return Ok(true);
      } else {
        RecountOk(imageDir, rel, row, row.refCount - 1);
        SetRow(rel, row.(refCount := row.refCount - 1));
        ReleaseNothing(volumes);
        return Ok(false);
      }
    }

    /** `unmount_all`: `unmount_image` on every image with a positive count, in whatever
        order the query returns them. */
    method UnmountAll(force: bool)
      requires Valid()
      modifies this
      ensures Valid() && nextId == old(nextId)
      ensures images == UnmountRows(old(images), MountedRels(old(images)), force)
      ensures volumes == ReleaseVolumes(old(volumes), NullSet(old(images), MountedRels(old(images)), force),
                                         DeleteSet(old(images), MountedRels(old(images)), force))
      ensures cleaned == old(cleaned) + multiset(CleanSet(old(images), MountedRels(old(images)), force))
    {
      var snapshot := MountedRels(images);
      var todo := snapshot;
      ghost var images0 := images;
      ghost var vols0 := volumes;
      ghost var cleaned0 := cleaned;
      ReleaseNothing(volumes);
      assert UnmountRows(images0, {}, force) == images0;
      assert snapshot - todo == {};
      assert NullSet(images0, {}, force) == {} && DeleteSet(images0, {}, force) == {} && CleanSet(images0, {}, force) == {};
      while todo != {}
        invariant Valid() && nextId == old(nextId)
        invariant todo <= snapshot && images.Keys == images0.Keys
        invariant images == UnmountRows(images0, snapshot - todo, force)
        invariant volumes == ReleaseVolumes(vols0, NullSet(images0, snapshot - todo, force), DeleteSet(images0, snapshot - todo, force))
        invariant cleaned == cleaned0 + multiset(CleanSet(images0, snapshot - todo, force))
        decreases |todo|
      {
        var rel :| rel in todo;
        MoveToDone(snapshot, todo, rel);
        UnmountAllRound(images0, vols0, cleaned0, snapshot - todo, rel, force);
        todo := todo - {rel};
      }
      assert snapshot - todo == snapshot;
    }

    /** One round of the `unmount_all` loop: `unmount_image` on an image not yet visited. */
    method UnmountAllRound(ghost images0: map<string, ImageRow>, ghost vols0: seq<VolumeRow>, ghost cleaned0: multiset<string>,
                           ghost done: set<string>, rel: string, force: bool)
      requires Valid() && rel in images0 && rel !in done
      requires images == UnmountRows(images0, done, force)
      requires volumes == ReleaseVolumes(vols0, NullSet(images0, done, force), DeleteSet(images0, done, force))
      requires cleaned == cleaned0 + multiset(CleanSet(images0, done, force))
      modifies this
      ensures Valid() && nextId == old(nextId) && images.Keys == old(images).Keys
      ensures images == UnmountRows(images0, done + {rel}, force)
      ensures volumes == ReleaseVolumes(vols0, NullSet(images0, done + {rel}, force), DeleteSet(images0, done + {rel}, force))
      ensures cleaned == cleaned0 + multiset(CleanSet(images0, done + {rel}, force))
    {
      UnmountAllStep(images0, vols0, cleaned0, done, rel, force);
      var _ := UnmountImage(rel, force);
    }

    /** `insert_image`: a path already catalogued keeps its row. */
    method InsertImage(rel: string)
      requires Valid()
      modifies this
      ensures Valid() && volumes == old(volumes) && cleaned == old(cleaned)
      ensures Registry(images, nextId) == Insert(imageDir, Registry(old(images), old(nextId)), rel)
    {
      InsertRemoveKeepOk(imageDir, Registry(images, nextId), rel);
      if rel !in images {
        images := images[rel := NewRow(imageDir, rel, nextId)];
        nextId := nextId + 1;
      }
    }

    /** `remove_image`: the row goes, its volume rows stay. */
    method RemoveImage(rel: string)
      requires Valid()
      modifies this
      ensures Valid() && volumes == old(volumes) && cleaned == old(cleaned)
      ensures Registry(images, nextId) == Remove(Registry(old(images), old(nextId)), rel)
    {
      InsertRemoveKeepOk(imageDir, Registry(images, nextId), rel);
      images := images - {rel};
    }

    /** The walk loop of `monitor_image_dir`: each listed path is remembered, an ignored
        one is removed from the catalog and an eligible one inserted. */
    method WalkImageDir(entries: seq<WalkEntry>) returns (paths: seq<string>)
      requires Valid()
      modifies this
      ensures Valid() && volumes == old(volumes) && cleaned == old(cleaned)
      ensures Registry(images, nextId) == Walk(imageDir, Registry(old(images), old(nextId)), entries)
      ensures paths == WalkedPaths(imageDir, entries)
    {
      paths := [];
      for i := 0 to |entries|
        invariant Valid() && volumes == old(volumes) && cleaned == old(cleaned)
        invariant Registry(images, nextId) == Walk(imageDir, Registry(old(images), old(nextId)), entries[..i])
        invariant paths == WalkedPaths(imageDir, entries[..i])
      {
        var e := entries[i];
        assert entries[..i + 1][..i] == entries[..i] && entries[..i + 1][i] == e;
        WalkedPathsSnoc(imageDir, entries, i);
        paths := paths + [FullPath(imageDir, e.rel)];
        if IgnoreFilter.CheckIgnored(FullPath(imageDir, e.rel), e.ctx) {
          RemoveImage(e.rel);
        } else if !Hidden(imageDir, e.rel) && e.isFile {
          InsertImage(e.rel);
        }
      }
      assert entries[..|entries|] == entries;
    }

    /** The second loop of `monitor_image_dir`: every catalogued image whose full path
        the walk did not list is removed. */
    method PruneImages(paths: seq<string>)
      requires Valid()
      modifies this
      ensures Valid() && volumes == old(volumes) && cleaned == old(cleaned) && nextId == old(nextId)
      ensures images == Prune(old(images), paths)
    {
      var todo := images.Keys;
      while todo != {}
        invariant Valid() && volumes == old(volumes) && cleaned == old(cleaned) && nextId == old(nextId)
        invariant todo <= old(images).Keys
        invariant images == map rel | rel in old(images) && (rel in todo || old(images)[rel].fullPath in paths) :: old(images)[rel]
        decreases |todo|
      {
        var rel :| rel in todo;
        if images[rel].fullPath !in paths {
          RemoveImage(rel);
        }
        todo := todo - {rel};
      }
    }

    /** `monitor_image_dir` over the entries the walk lists, in walk order. */
    method MonitorImageDir(entries: seq<WalkEntry>)
      requires Valid()
      modifies this
      ensures Valid() && volumes == old(volumes) && cleaned == old(cleaned)
      ensures nextId == Walk(imageDir, Registry(old(images), old(nextId)), entries).nextId
      ensures images == Prune(Walk(imageDir, Registry(old(images), old(nextId)), entries).images, WalkedPaths(imageDir, entries))
    {
      var paths := WalkImageDir(entries);
      PruneImages(paths);
    }
  }

  /** The end of `mount_image` once the library has been called: a failure leaves the
      count the plan names, a stored parser updates the image row and writes the volume
      rows, and a duplicate volume group from the first attempt is raised afterwards. */
  predicate MountStored(images: map<string, ImageRow>, vols: seq<VolumeRow>, rel: string, plan: Plan,
                        r: Result<Disk, MountError>, images': map<string, ImageRow>, vols': seq<VolumeRow>)
    requires rel in images
    requires plan.Store? ==> Volumes.Sound(plan.parser)
  {
    match plan
    case Fail(error, refCount) =>
      r == Err(error) && images' == images[rel := images[rel].(refCount := refCount)] && vols' == vols
    case Store(p, reraise) =>
      && r == (if reraise.Some? then Err(DuplicateVolumeGroupError(reraise.value)) else Ok(StoredDisk(p)))
      && images' == images[rel := PersistedRow(images[rel], p)]
      && vols' == UpsertAll(vols, images[rel].id, p.nodes, Volumes.FlatList(p), Volumes.FlatIndex(p))
  }
}

/** The in-memory `MountManager` of `thumbtack/manager.py`: a dictionary from the relative
    image path to the parser that mounted it and the number of outstanding references.
    The mounting library is described by the value it produces, and `clean()` on a parser
    is recorded in a ghost multiset of the paths whose parser was cleaned. */
module Manager {
  import opened Wrappers
  import Volumes

  /** The first disk of a parser: its mountpoint and those of its volumes. */
  datatype ManagedDisk = ManagedDisk(mountpoint: Option<string>, volumeMountpoints: seq<Option<string>>)

  /** What constructing an `imagemounter.ImageParser` and iterating its `init()` gives:
      an exception, or the disks it found, described by their count and the first one. */
  datatype Opening = LibraryRaises | Parsed(diskCount: nat, first: ManagedDisk)

  /** The `MountInfo` named tuple. */
  datatype MountInfo = MountInfo(disk: ManagedDisk, refCount: int)

  /** `MountManagerError` with what it says, and the 404 `abort` of `flask_restful`. */
  datatype ManagerError =
    | Unreadable
    | UnexpectedDisks(count: nat)
    | NoMountableVolumes
    | LibraryError
    | NotMounted

  /** Some volume of the disk has a truthy mountpoint. */
  predicate AnyMountable(d: ManagedDisk) {
    exists i | 0 <= i < |d.volumeMountpoints| :: Volumes.Truthy(d.volumeMountpoints[i])
  }

  /** Every tracked image has at least one reference. */
  predicate Held(mounts: map<string, MountInfo>) {
    forall rel :: rel in mounts ==> mounts[rel].refCount >= 1
  }

  /** One more reference to a tracked image, or a first one with `disk`. */
  function Acquire(mounts: map<string, MountInfo>, rel: string, disk: ManagedDisk): (res: map<string, MountInfo>)
    ensures res.Keys == mounts.Keys + {rel}
    ensures forall other :: other in mounts && other != rel ==> res[other] == mounts[other]
  {
    if rel in mounts then mounts[rel := mounts[rel].(refCount := mounts[rel].refCount + 1)]
    else mounts[rel := MountInfo(disk, 1)]
  }

  /** One reference fewer to a tracked image; the last one removes the entry. */
  function Release(mounts: map<string, MountInfo>, rel: string): (res: map<string, MountInfo>)
    requires rel in mounts
    ensures forall other :: other != rel ==> (other in res <==> other in mounts)
    ensures forall other :: other in mounts && other != rel ==> res[other] == mounts[other]
  {
    if mounts[rel].refCount > 1 then mounts[rel := mounts[rel].(refCount := mounts[rel].refCount - 1)]
    else mounts - {rel}
  }

  /** Acquiring and releasing keep every count at least 1; an acquired image is tracked
      with a count one higher than before, or 1, and keeps its disk. */
  lemma AcquireHeld(mounts: map<string, MountInfo>, rel: string, disk: ManagedDisk)
    requires Held(mounts)
    ensures Held(Acquire(mounts, rel, disk))
    ensures Acquire(mounts, rel, disk)[rel].refCount == (if rel in mounts then mounts[rel].refCount + 1 else 1)
    ensures Acquire(mounts, rel, disk)[rel].disk == (if rel in mounts then mounts[rel].disk else disk)
  {
  }

  /** A release removes the entry exactly when it held the last reference, and keeps
      the disk otherwise. */
  lemma ReleaseHeld(mounts: map<string, MountInfo>, rel: string)
    requires Held(mounts) && rel in mounts
    ensures Held(Release(mounts, rel))
    ensures rel !in Release(mounts, rel) <==> mounts[rel].refCount == 1
    ensures rel in Release(mounts, rel) ==>
      Release(mounts, rel)[rel] == mounts[rel].(refCount := mounts[rel].refCount - 1)
  {
  }

  /** Releasing what was just acquired gives back the dictionary as it was. */
  lemma ReleaseUndoesAcquire(mounts: map<string, MountInfo>, rel: string, disk: ManagedDisk)
    requires Held(mounts)
    ensures Release(Acquire(mounts, rel, disk), rel) == mounts
  {
    if rel in mounts {
      assert Release(Acquire(mounts, rel, disk), rel) == mounts[rel := mounts[rel]];
    } else {
      assert Release(Acquire(mounts, rel, disk), rel) == mounts;
    }
  }

  /** The dictionary after `n` further `mount_image` calls on a tracked image. */
  function AcquireN(mounts: map<string, MountInfo>, rel: string, n: nat): map<string, MountInfo>
    requires rel in mounts
  {
    if n == 0 then mounts else Acquire(AcquireN(mounts, rel, n - 1), rel, mounts[rel].disk)
  }

  /** `n` further acquisitions of a tracked image raise its count by exactly `n`. */
  lemma {:induction false} AcquiresAccumulate(mounts: map<string, MountInfo>, rel: string, n: nat)
    requires Held(mounts) && rel in mounts
    ensures var m := AcquireN(mounts, rel, n);
      rel in m && m[rel].refCount == mounts[rel].refCount + n && Held(m)
  {
    if n > 0 {
      AcquiresAccumulate(mounts, rel, n - 1);
      AcquireHeld(AcquireN(mounts, rel, n - 1), rel, mounts[rel].disk);
    }
  }

  class MountManager {
    var mounts: map<string, MountInfo>
    /** The paths whose parser `clean()` was called on, with repetitions. */
    ghost var cleaned: multiset<string>

    ghost predicate Valid()
      reads this
    {
      Held(mounts)
    }

    constructor ()
      ensures Valid() && mounts == map[] && cleaned == multiset{}
    {
      mounts := map[];
      cleaned := multiset{};
    }

    /** `mount_image`. The file system's answer to `os.access` is `readable`; the
        library's is `opening`. */
    method MountImage(rel: string, readable: bool, opening: Opening) returns (r: Result<ManagedDisk, ManagerError>)
      requires Valid()
      modifies this
      ensures Valid()
      ensures rel in old(mounts) ==>
        r == Ok(old(mounts)[rel].disk) && mounts == Acquire(old(mounts), rel, old(mounts)[rel].disk) && cleaned == old(cleaned)
      ensures rel !in old(mounts) && (!readable || opening.LibraryRaises?) ==>
        r == Err(if !readable then Unreadable else LibraryError) && mounts == old(mounts) && cleaned == old(cleaned)
      ensures rel !in old(mounts) && readable && opening.Parsed? && opening.diskCount != 1 ==>
        r == Err(UnexpectedDisks(opening.diskCount)) && mounts == old(mounts) && cleaned == old(cleaned) + multiset{rel}
      ensures rel !in old(mounts) && readable && opening.Parsed? && opening.diskCount == 1 && !AnyMountable(opening.first) ==>
        r == Err(NoMountableVolumes) && mounts == old(mounts) && cleaned == old(cleaned) + multiset{rel}
      ensures rel !in old(mounts) && readable && opening.Parsed? && opening.diskCount == 1 && AnyMountable(opening.first) ==>
        r == Ok(opening.first) && mounts == Acquire(old(mounts), rel, opening.first) && cleaned == old(cleaned)
    {
      if rel in mounts {
        var info := mounts[rel];
        AcquireHeld(mounts, rel, info.disk);
        mounts := mounts[rel := info.(refCount := info.refCount + 1)];
        return Ok(info.disk);
      }
      if !readable {
        return Err(Unreadable);
      }
      if opening.LibraryRaises? {
        return Err(LibraryError);
      }
      if opening.diskCount != 1 {
        cleaned := cleaned + multiset{rel};
        return Err(UnexpectedDisks(opening.diskCount));
      }
      var mountable := HasMountableVolume(opening.first);
      if !mountable {
        cleaned := cleaned + multiset{rel};
        return Err(NoMountableVolumes);
      }
      AcquireHeld(mounts, rel, opening.first);
      mounts := mounts[rel := MountInfo(opening.first, 1)];
      return Ok(opening.first);
    }

    /** The list comprehension of `mount_image` that keeps the volumes with a mountpoint,
        tested for emptiness. */
    static method HasMountableVolume(d: ManagedDisk) returns (found: bool)
      ensures found == AnyMountable(d)
    {
      var kept: seq<Option<string>> := [];
      for i := 0 to |d.volumeMountpoints|
        invariant (kept != []) <==> exists j | 0 <= j < i :: Volumes.Truthy(d.volumeMountpoints[j])
      {
        if Volumes.Truthy(d.volumeMountpoints[i]) {
          kept := kept + [d.volumeMountpoints[i]];
        }
      }
      return kept != [];
    }

    /** `get_mount`. */
    method GetMount(rel: string) returns (r: Result<ManagedDisk, ManagerError>)
      ensures rel in mounts ==> r == Ok(mounts[rel].disk)
      ensures rel !in mounts ==> r == Err(NotMounted)
    {
      if rel in mounts {
        return Ok(mounts[rel].disk);
      }
      return Err(NotMounted);
    }

    /** `unmount_image`. */
    method UnmountImage(rel: string) returns (r: Result<(), ManagerError>)
      requires Valid()
      modifies this
      ensures Valid()
      ensures rel !in old(mounts) ==> r == Err(NotMounted) && mounts == old(mounts) && cleaned == old(cleaned)
      ensures rel in old(mounts) ==>
        && r == Ok(())
        && mounts == Release(old(mounts), rel)
        && cleaned == old(cleaned) + (if old(mounts)[rel].refCount > 1 then multiset{} else multiset{rel})
    {
      if rel !in mounts {
        return Err(NotMounted);
      }
      var info := mounts[rel];
      ReleaseHeld(mounts, rel);
      if info.refCount > 1 {
        mounts := mounts[rel := info.(refCount := info.refCount - 1)];
      } else {
        cleaned := cleaned + multiset{rel};
        mounts := mounts - {rel};
      }
      return Ok(());
    }

    /** `get_ref_count`. */
    function GetRefCount(rel: string): (n: int)
      requires Valid()
      reads this
      ensures n >= 0
      ensures n == 0 <==> rel !in mounts
    {
      if rel in mounts then mounts[rel].refCount else 0
    }

    /** `all_mounts`: the first disk of every tracked parser, in the dictionary's order,
        which `order` names. */
    method AllMounts() returns (disks: seq<ManagedDisk>, ghost order: seq<string>)
      ensures |disks| == |order| == |mounts|
      ensures forall i :: 0 <= i < |order| ==> order[i] in mounts && disks[i] == mounts[order[i]].disk
      ensures forall i, j :: 0 <= i < j < |order| ==> order[i] != order[j]
      ensures forall rel :: rel in mounts ==> rel in order
    {
      disks := [];
      order := [];
      var todo := mounts.Keys;
      while todo != {}
        invariant todo <= mounts.Keys
        invariant |disks| == |order|
        invariant forall i :: 0 <= i < |order| ==> order[i] in mounts && order[i] !in todo && disks[i] == mounts[order[i]].disk
        invariant forall i, j :: 0 <= i < j < |order| ==> order[i] != order[j]
        invariant forall rel :: rel in mounts ==> rel in todo || rel in order
        invariant |order| + |todo| == |mounts.Keys|
        decreases |todo|
      {
        var rel :| rel in todo;
        disks := disks + [mounts[rel].disk];
        order := order + [rel];
        todo := todo - {rel};
      }
    }

    /** `cleanup`: every tracked parser is cleaned; the dictionary itself is kept. */
    method Cleanup()
      modifies this
      ensures mounts == old(mounts)
      ensures cleaned == old(cleaned) + multiset(mounts.Keys)
    {
      var todo := mounts.Keys;
      while todo != {}
        invariant mounts == old(mounts) && todo <= mounts.Keys
        invariant cleaned == old(cleaned) + multiset(mounts.Keys - todo)
        decreases |todo|
      {
        var rel :| rel in todo;
        assert mounts.Keys - (todo - {rel}) == (mounts.Keys - todo) + {rel};
        cleaned := cleaned + multiset{rel};
        todo := todo - {rel};
      }
    }
  }
}

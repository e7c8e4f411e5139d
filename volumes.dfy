/** The image parser handed back by the mounting library, and `process_image_parser`
    of `src/thumbtack/utils.py`, which flattens nested volumes into the first disk's
    volume list in place.

    The library's volume objects form a graph that the model keeps as an arena: volume
    `x` is `nodes[x]` and refers to its sub-volumes by number. What the library fixes
    (mountpoints after `init()`, the duplicate-volume-group flag and name, whether it is
    a LUKS container, the sub-volumes) is constant; the `index` attribute of every
    volume and the first disk's volume list are the state that `process_image_parser`
    changes. Because the list holds references, one volume can appear in it twice, and
    its `index` is then the one written last. */
module Volumes {
  import opened Wrappers

  datatype VolumeNode = VolumeNode(
    mountpoint: Option<string>,
    dupVg: bool,
    vgName: string,
    luks: bool,
    children: seq<nat>)

  /** Python truthiness of a mountpoint: set and not empty. */
  predicate Truthy(mp: Option<string>) {
    mp.Some? && mp.value != ""
  }

  /** Sub-volumes are numbered after their parent, so the volume graph has no cycle. */
  predicate WellFormed(nodes: seq<VolumeNode>) {
    forall x, j :: 0 <= x < |nodes| && 0 <= j < |nodes[x].children| ==> x < nodes[x].children[j] < |nodes|
  }

  predicate Above(nodes: seq<VolumeNode>, ids: seq<nat>, lo: int) {
    forall i :: 0 <= i < |ids| ==> lo < ids[i] < |nodes|
  }

  // ---------------------------------------------------------------------------
  // What visiting one volume of the list does

  /** The volumes among `ids` whose mountpoint is not `None`, in order. */
  function MountedAmong(nodes: seq<VolumeNode>, ids: seq<nat>, lo: int): (r: seq<nat>)
    requires Above(nodes, ids, lo)
    ensures Above(nodes, r, lo)
  {
    if ids == [] then []
    else
      var last := ids[|ids| - 1];
      MountedAmong(nodes, ids[..|ids| - 1], lo) + (if nodes[last].mountpoint.Some? then [last] else [])
  }

  /** `MountedAmong` keeps exactly the volumes of `ids` whose mountpoint is not `None`. */
  lemma {:induction false} MountedAmongMembers(nodes: seq<VolumeNode>, ids: seq<nat>, lo: int)
    requires Above(nodes, ids, lo)
    ensures forall x :: x in MountedAmong(nodes, ids, lo) <==> x in ids && nodes[x].mountpoint.Some?
    ensures |MountedAmong(nodes, ids, lo)| <= |ids|
  {
    if ids != [] {
      var init := ids[..|ids| - 1];
      MountedAmongMembers(nodes, init, lo);
      assert ids == init + [ids[|ids| - 1]];
    }
  }

  /** `MountedAmong` keeps the order of `ids`: what it keeps of a prefix of `ids` is a
      prefix of what it keeps of the whole. */
  lemma {:induction false} MountedAmongPrefix(nodes: seq<VolumeNode>, ids: seq<nat>, j: nat, lo: int)
    requires Above(nodes, ids, lo) && j <= |ids|
    ensures Above(nodes, ids[..j], lo)
    ensures MountedAmong(nodes, ids[..j], lo) <= MountedAmong(nodes, ids, lo)
    decreases |ids|
  {
    if j < |ids| {
      var init := ids[..|ids| - 1];
      assert ids[..j] == init[..j];
      MountedAmongPrefix(nodes, init, j, lo);
    } else {
      assert ids[..j] == ids;
    }
  }

  /** One more sub-volume: its append, if it has a mountpoint, and its flag come last. */
  lemma SubVolumeStep(nodes: seq<VolumeNode>, subs: seq<nat>, s: nat, lo: int)
    requires Above(nodes, subs, lo) && s < |subs|
    ensures MountedAmong(nodes, subs[..s + 1], lo)
      == MountedAmong(nodes, subs[..s], lo) + (if nodes[subs[s]].mountpoint.Some? then [subs[s]] else [])
    ensures FlaggedNames(nodes, subs[..s + 1])
      == FlaggedNames(nodes, subs[..s]) + (if nodes[subs[s]].dupVg then [nodes[subs[s]].vgName] else [])
  {
    assert subs[..s + 1][..s] == subs[..s];
  }

  /** The appends made for one sub-volume `vol` of a volume without a mountpoint: `vol`
      itself when it has a mountpoint, then those of its own sub-volumes that have one. */
  function NestedPiece(nodes: seq<VolumeNode>, vol: nat): (r: seq<nat>)
    requires WellFormed(nodes) && vol < |nodes|
    ensures Above(nodes, r, vol - 1)
  {
    (if nodes[vol].mountpoint.Some? then [vol] else []) + MountedAmong(nodes, nodes[vol].children, vol)
  }

  /** The duplicate volume groups met at one sub-volume `vol` and its sub-volumes. */
  function NestedNames(nodes: seq<VolumeNode>, vol: nat): seq<string>
    requires WellFormed(nodes) && vol < |nodes|
  {
    (if nodes[vol].dupVg then [nodes[vol].vgName] else []) + FlaggedNames(nodes, nodes[vol].children)
  }

  /** The appends made for the sub-volumes `vols` of a volume without a mountpoint. */
  function NestedAppends(nodes: seq<VolumeNode>, vols: seq<nat>, lo: int): (r: seq<nat>)
    requires WellFormed(nodes) && Above(nodes, vols, lo) && lo >= -1
    ensures Above(nodes, r, lo)
  {
    if vols == [] then []
    else
      var vol := vols[|vols| - 1];
      NestedAppends(nodes, vols[..|vols| - 1], lo) + NestedPiece(nodes, vol)
  }

  /** The volumes appended to the list while volume `x` is visited. A volume with a
      mountpoint contributes all its sub-volumes; one whose mountpoint is `None`
      contributes its sub-volumes and their sub-volumes that have a mountpoint; one whose
      mountpoint is the empty string contributes nothing. */
  function Appends(nodes: seq<VolumeNode>, x: nat): (r: seq<nat>)
    requires WellFormed(nodes) && x < |nodes|
    ensures Above(nodes, r, x)
  {
    var v := nodes[x];
    if Truthy(v.mountpoint) then v.children
    else if v.mountpoint.None? then NestedAppends(nodes, v.children, x)
    else []
  }

  /** The names of duplicate volume groups met among the sub-volumes `vols`, in order. */
  function NestedEvents(nodes: seq<VolumeNode>, vols: seq<nat>): seq<string>
    requires Above(nodes, vols, -1) && WellFormed(nodes)
  {
    if vols == [] then []
    else
      var vol := vols[|vols| - 1];
      NestedEvents(nodes, vols[..|vols| - 1]) + NestedNames(nodes, vol)
  }

  function FlaggedNames(nodes: seq<VolumeNode>, ids: seq<nat>): seq<string>
    requires Above(nodes, ids, -1)
  {
    if ids == [] then []
    else
      var last := ids[|ids| - 1];
      FlaggedNames(nodes, ids[..|ids| - 1]) + (if nodes[last].dupVg then [nodes[last].vgName] else [])
  }

  /** The duplicate volume groups detected while volume `x` is visited: its own flag,
      and, when it has no mountpoint, those of its sub-volumes and their sub-volumes. */
  function VisitEvents(nodes: seq<VolumeNode>, x: nat): (ev: seq<string>)
    requires WellFormed(nodes) && x < |nodes|
    ensures nodes[x].dupVg ==> ev != [] && ev[0] == nodes[x].vgName
    ensures nodes[x].mountpoint.Some? ==> |ev| <= 1
  {
    var v := nodes[x];
    (if v.dupVg then [v.vgName] else [])
      + (if v.mountpoint.None? then NestedEvents(nodes, v.children) else [])
  }

  /** The events of visiting every volume of `list`, in order. */
  function AllEvents(nodes: seq<VolumeNode>, list: seq<nat>): seq<string>
    requires WellFormed(nodes) && Above(nodes, list, -1)
  {
    if list == [] then []
    else AllEvents(nodes, list[..|list| - 1]) + VisitEvents(nodes, list[|list| - 1])
  }

  /** The group name of every flagged listed volume is among the names reported while
      the list is visited. */
  lemma {:induction false} AllEventsReportsFlagged(nodes: seq<VolumeNode>, list: seq<nat>)
    requires WellFormed(nodes) && Above(nodes, list, -1)
    ensures forall i :: 0 <= i < |list| && nodes[list[i]].dupVg ==> nodes[list[i]].vgName in AllEvents(nodes, list)
  {
    if list != [] {
      var init := list[..|list| - 1];
      AllEventsReportsFlagged(nodes, init);
      ReportedStep(nodes, list, init, AllEvents(nodes, init), VisitEvents(nodes, list[|list| - 1]));
    }
  }

  /** The names reported for a list are those reported for all but its last volume,
      then those of the last one. */
  lemma ReportedStep(nodes: seq<VolumeNode>, list: seq<nat>, init: seq<nat>, before: seq<string>, own: seq<string>)
    requires Above(nodes, list, -1) && list != [] && init == list[..|list| - 1]
    requires forall i :: 0 <= i < |init| && nodes[init[i]].dupVg ==> nodes[init[i]].vgName in before
    requires nodes[list[|list| - 1]].dupVg ==> nodes[list[|list| - 1]].vgName in own
    ensures forall i :: 0 <= i < |list| && nodes[list[i]].dupVg ==> nodes[list[i]].vgName in before + own
  {
    forall i | 0 <= i < |list| && nodes[list[i]].dupVg
      ensures nodes[list[i]].vgName in before + own
    {
      if i < |list| - 1 {
        assert init[i] == list[i];
      }
    }
  }

  // ---------------------------------------------------------------------------
  // Termination: every visit removes one volume and appends lighter ones

  function Weight(nodes: seq<VolumeNode>, x: nat): nat
    requires WellFormed(nodes) && x < |nodes|
    decreases |nodes| - x + 1, 0
  {
    1 + SumAbove(nodes, Appends(nodes, x), x)
  }

  function SumAbove(nodes: seq<VolumeNode>, ids: seq<nat>, lo: int): nat
    requires WellFormed(nodes) && Above(nodes, ids, lo) && lo >= -1
    decreases |nodes| - lo, |ids|
  {
    if ids == [] then 0 else Weight(nodes, ids[0]) + SumAbove(nodes, ids[1..], lo)
  }

  lemma {:induction false} SumAboveLower(nodes: seq<VolumeNode>, ids: seq<nat>, lo: int)
    requires WellFormed(nodes) && Above(nodes, ids, lo) && lo >= -1
    ensures SumAbove(nodes, ids, lo) == SumAbove(nodes, ids, -1)
    decreases |ids|
  {
    if ids != [] {
      SumAboveLower(nodes, ids[1..], lo);
    }
  }

  lemma {:induction false} SumAboveConcat(nodes: seq<VolumeNode>, a: seq<nat>, b: seq<nat>)
    requires WellFormed(nodes) && Above(nodes, a, -1) && Above(nodes, b, -1)
    ensures SumAbove(nodes, a + b, -1) == SumAbove(nodes, a, -1) + SumAbove(nodes, b, -1)
    decreases |a|
  {
    if a != [] {
      assert (a + b)[1..] == a[1..] + b;
      SumAboveConcat(nodes, a[1..], b);
    } else {
      assert a + b == b;
    }
  }

  /** Visiting the volume at position `k` lowers the weight still to be visited by one. */
  lemma VisitLowersWeight(nodes: seq<VolumeNode>, vols: seq<nat>, k: nat)
    requires WellFormed(nodes) && Above(nodes, vols, -1) && k < |vols|
    ensures Above(nodes, vols + Appends(nodes, vols[k]), -1)
    ensures SumAbove(nodes, (vols + Appends(nodes, vols[k]))[k + 1..], -1) + 1 == SumAbove(nodes, vols[k..], -1)
  {
    var a := Appends(nodes, vols[k]);
    assert (vols + a)[k + 1..] == vols[k + 1..] + a;
    SumAboveConcat(nodes, vols[k + 1..], a);
    SumAboveLower(nodes, a, vols[k]);
    assert vols[k..][1..] == vols[k + 1..];
  }

  /** The volume list once every volume in it, old and appended, has been visited from
      position `k` on. */
  function Run(nodes: seq<VolumeNode>, vols: seq<nat>, k: nat): (r: seq<nat>)
    requires WellFormed(nodes) && Above(nodes, vols, -1) && k <= |vols|
    ensures Above(nodes, r, -1)
    decreases SumAbove(nodes, vols[k..], -1)
  {
    if k == |vols| then vols
    else
      VisitLowersWeight(nodes, vols, k);
      Run(nodes, vols + Appends(nodes, vols[k]), k + 1)
  }

  lemma ConcatAssoc(a: seq<nat>, b: seq<nat>, c: seq<nat>)
    ensures (a + b) + c == a + (b + c)
  {
  }

  /** One more sub-volume visited in the branch for a volume without a mountpoint. */
  lemma NestedStep(nodes: seq<VolumeNode>, vols: seq<nat>, j: nat, lo: int)
    requires WellFormed(nodes) && Above(nodes, vols, lo) && lo >= -1 && j < |vols|
    ensures NestedAppends(nodes, vols[..j + 1], lo) == NestedAppends(nodes, vols[..j], lo) + NestedPiece(nodes, vols[j])
    ensures NestedEvents(nodes, vols[..j + 1]) == NestedEvents(nodes, vols[..j]) + NestedNames(nodes, vols[j])
  {
    assert vols[..j + 1][..j] == vols[..j];
  }

  /** One more volume of the list visited. */
  lemma RunStep(nodes: seq<VolumeNode>, vols: seq<nat>, k: nat)
    requires WellFormed(nodes) && Above(nodes, vols, -1) && k < |vols|
    ensures Above(nodes, vols + Appends(nodes, vols[k]), -1)
    ensures Run(nodes, vols + Appends(nodes, vols[k]), k + 1) == Run(nodes, vols, k)
    ensures AllEvents(nodes, (vols + Appends(nodes, vols[k]))[..k + 1])
      == AllEvents(nodes, vols[..k]) + VisitEvents(nodes, vols[k])
  {
    VisitLowersWeight(nodes, vols, k);
    var after := vols + Appends(nodes, vols[k]);
    assert Run(nodes, vols, k) == Run(nodes, after, k + 1);
    assert after[..k + 1] == vols[..k + 1];
    EventsStep(nodes, vols, k);
  }

  /** The events of the first `k + 1` listed volumes are those of the first `k`, then
      those of volume `k`. */
  lemma EventsStep(nodes: seq<VolumeNode>, vols: seq<nat>, k: nat)
    requires WellFormed(nodes) && Above(nodes, vols, -1) && k < |vols|
    ensures AllEvents(nodes, vols[..k + 1]) == AllEvents(nodes, vols[..k]) + VisitEvents(nodes, vols[k])
  {
    var pre := vols[..k + 1];
    assert pre[..|pre| - 1] == vols[..k] && pre[|pre| - 1] == vols[k];
  }

  // ---------------------------------------------------------------------------
  // The outcome

  datatype Outcome =
    | Processed
    | UnexpectedDisk(count: nat)
    | DuplicateVolumeGroup(vgName: string)
    | NoMountableVolumes

  function LastOr(names: seq<string>, default: string): string {
    if names == [] then default else names[|names| - 1]
  }

  /** The last of two lists of names run one after the other. */
  lemma LastOrConcat(a: seq<string>, b: seq<string>, default: string)
    ensures (a + b != []) == (a != [] || b != [])
    ensures LastOr(a + b, default) == LastOr(b, LastOr(a, default))
  {
    if b != [] {
      assert (a + b)[|a + b| - 1] == b[|b| - 1];
    } else {
      assert a + b == a;
    }
  }

  predicate AnyFlagged(nodes: seq<VolumeNode>, list: seq<nat>)
    requires Above(nodes, list, -1)
  {
    exists i :: 0 <= i < |list| && nodes[list[i]].dupVg
  }

  predicate AnyMountable(nodes: seq<VolumeNode>, list: seq<nat>)
    requires Above(nodes, list, -1)
  {
    exists i :: 0 <= i < |list| && Truthy(nodes[list[i]].mountpoint)
  }

  /** The checks after the loop: a duplicate volume group (seen during the loop or
      flagged on a listed volume) comes first, then a list without a mounted volume. */
  function Verdict(nodes: seq<VolumeNode>, list: seq<nat>): (r: Outcome)
    requires WellFormed(nodes) && Above(nodes, list, -1)
    ensures AnyFlagged(nodes, list) ==> r.DuplicateVolumeGroup?
    ensures r == NoMountableVolumes ==> !AnyMountable(nodes, list)
    ensures r == Processed ==> AnyMountable(nodes, list) && !AnyFlagged(nodes, list)
    ensures !r.UnexpectedDisk?
  {
    var events := AllEvents(nodes, list);
    if events != [] || AnyFlagged(nodes, list) then DuplicateVolumeGroup(LastOr(events, ""))
    else if !AnyMountable(nodes, list) then NoMountableVolumes
    else Processed
  }

  /** The last position at or after `from` where `x` is listed, or `default`. */
  function LastAt(vols: seq<nat>, from: nat, x: nat, default: int): (p: int)
    ensures (exists q :: from <= q < |vols| && vols[q] == x) ==> from <= p < |vols| && vols[p] == x
    ensures (forall q :: from <= q < |vols| ==> vols[q] != x) ==> p == default
    ensures from <= p < |vols| ==> forall q :: p < q < |vols| ==> vols[q] != x
  {
    if |vols| <= from then default
    else if vols[|vols| - 1] == x then |vols| - 1
    else LastAt(vols[..|vols| - 1], from, x, default)
  }

  /** Every volume's `index` is the position where it was appended last, or what the
      library gave it when it was not appended. */
  predicate IndexRel(vols: seq<nat>, from: nat, index: seq<int>, index0: seq<int>) {
    && |index| == |index0|
    && forall x :: 0 <= x < |index| ==> index[x] == LastAt(vols, from, x, index0[x])
  }

  /** The `index` attributes after the volumes listed from position `from` on have been
      numbered in order, one assignment at a time. */
  function Numbered(index0: seq<int>, vols: seq<nat>, from: nat): (index: seq<int>)
    ensures |index| == |index0|
    ensures forall x :: 0 <= x < |index| && (forall q :: from <= q < |vols| ==> vols[q] != x) ==> index[x] == index0[x]
  {
    if |vols| <= from then index0
    else
      var before := Numbered(index0, vols[..|vols| - 1], from);
      var x := vols[|vols| - 1];
      if x < |before| then before[x := |vols| - 1] else before
  }

  /** Numbering the volumes one after another leaves every volume with the position
      where it was listed last. */
  lemma {:induction false} NumberedIsLast(index0: seq<int>, vols: seq<nat>, from: nat)
    ensures IndexRel(vols, from, Numbered(index0, vols, from), index0)
  {
    if |vols| > from {
      var init := vols[..|vols| - 1];
      NumberedIsLast(index0, init, from);
      forall x | 0 <= x < |index0|
        ensures Numbered(index0, vols, from)[x] == LastAt(vols, from, x, index0[x])
      {
        LastAtAppend(init, from, vols[|vols| - 1], x, index0[x]);
        assert init + [vols[|vols| - 1]] == vols;
      }
    }
  }

  lemma LastAtAppend(vols: seq<nat>, from: nat, y: nat, x: nat, default: int)
    requires from <= |vols|
    ensures LastAt(vols + [y], from, x, default) == if x == y then |vols| else LastAt(vols, from, x, default)
  {
    assert (vols + [y])[..|vols|] == vols;
  }

  /** When no volume is appended twice, the appended volumes carry consecutive indices
      from the original length of the list. */
  lemma ConsecutiveIndices(vols: seq<nat>, from: nat, index: seq<int>, index0: seq<int>)
    requires IndexRel(vols, from, index, index0)
    requires forall p, q :: from <= p < q < |vols| ==> vols[p] != vols[q]
    requires forall p :: from <= p < |vols| ==> vols[p] < |index|
    ensures forall p :: from <= p < |vols| ==> index[vols[p]] == p
  {
    forall p | from <= p < |vols|
      ensures index[vols[p]] == p
    {
      var l := LastAt(vols, from, vols[p], index0[vols[p]]);
      assert from <= l < |vols| && vols[l] == vols[p];
    }
  }

  // ---------------------------------------------------------------------------
  // A parser as a value

  /** What the mounting library reports once `init()` has run: the number of disks,
      the first disk's mountpoint, the volume objects, the first disk's volume list and
      each volume's `index`. */
  datatype Parser = Parser(
    diskCount: nat,
    diskMountpoint: Option<string>,
    nodes: seq<VolumeNode>,
    volumes: seq<nat>,
    index: seq<int>)

  predicate Sound(p: Parser) {
    WellFormed(p.nodes) && Above(p.nodes, p.volumes, -1) && |p.index| == |p.nodes|
  }

  /** The first disk's volume list after `process_image_parser`. */
  function FlatList(p: Parser): (list: seq<nat>)
    requires Sound(p)
    ensures Above(p.nodes, list, -1)
    ensures p.volumes <= list
  {
    RunKeepsPrefix(p.nodes, p.volumes, 0);
    Run(p.nodes, p.volumes, 0)
  }

  /** Every volume's `index` after `process_image_parser`. */
  function FlatIndex(p: Parser): (index: seq<int>)
    requires Sound(p)
    ensures |index| == |p.nodes|
    ensures IndexRel(FlatList(p), |p.volumes|, index, p.index)
  {
    NumberedIsLast(p.index, FlatList(p), |p.volumes|);
    Numbered(p.index, FlatList(p), |p.volumes|)
  }

  /** How `process_image_parser` ends on `p`. */
  function ProcessOutcome(p: Parser): (r: Outcome)
    requires Sound(p)
    ensures r.UnexpectedDisk? <==> p.diskCount != 1
    ensures r.UnexpectedDisk? ==> r.count == p.diskCount
    ensures r == Processed ==> AnyMountable(p.nodes, FlatList(p)) && !AnyFlagged(p.nodes, FlatList(p))
  {
    if p.diskCount != 1 then UnexpectedDisk(p.diskCount) else Verdict(p.nodes, FlatList(p))
  }

  /** Whether some listed volume is a LUKS container. */
  predicate AnyLuks(nodes: seq<VolumeNode>, list: seq<nat>)
    requires Above(nodes, list, -1)
  {
    exists i :: 0 <= i < |list| && nodes[list[i]].luks
  }

  // ---------------------------------------------------------------------------
  // Properties of the flattening

  /** The volumes listed before flattening stay in place at the front of the list. */
  lemma {:induction false} RunKeepsPrefix(nodes: seq<VolumeNode>, vols: seq<nat>, k: nat)
    requires WellFormed(nodes) && Above(nodes, vols, -1) && k <= |vols|
    ensures vols <= Run(nodes, vols, k)
    decreases SumAbove(nodes, vols[k..], -1)
  {
    if k < |vols| {
      VisitLowersWeight(nodes, vols, k);
      var next := vols + Appends(nodes, vols[k]);
      RunKeepsPrefix(nodes, next, k + 1);
      assert vols <= next;
    }
  }

  /** A flagged volume in the list has always been reported while it was visited, so
      the second duplicate test after the loop can never fire on its own. */
  lemma {:induction false} FlaggedIsReported(nodes: seq<VolumeNode>, list: seq<nat>)
    requires WellFormed(nodes) && Above(nodes, list, -1)
    ensures AnyFlagged(nodes, list) ==> AllEvents(nodes, list) != []
  {
    if list != [] && AnyFlagged(nodes, list) {
      var init := list[..|list| - 1];
      var last := list[|list| - 1];
      if nodes[last].dupVg {
        assert VisitEvents(nodes, last)[0] == nodes[last].vgName;
      } else {
        var i :| 0 <= i < |list| && nodes[list[i]].dupVg;
        assert init[i] == list[i];
        FlaggedIsReported(nodes, init);
      }
    }
  }

  /** The verdict comes down to the duplicates reported during the loop and then to the
      mountpoints: no volume group is rejected unless it was reported, and a list is
      rejected for having no mountable volume only when nothing was reported. */
  lemma VerdictCases(nodes: seq<VolumeNode>, list: seq<nat>)
    requires WellFormed(nodes) && Above(nodes, list, -1)
    ensures Verdict(nodes, list).DuplicateVolumeGroup? <==> AllEvents(nodes, list) != []
    ensures Verdict(nodes, list) == NoMountableVolumes <==> AllEvents(nodes, list) == [] && !AnyMountable(nodes, list)
    ensures Verdict(nodes, list) == Processed <==> AllEvents(nodes, list) == [] && AnyMountable(nodes, list)
  {
    FlaggedIsReported(nodes, list);
  }

  /** The shape of a volume without a mountpoint (0) whose one sub-volume (1) has a
      truthy mountpoint and a sub-volume (2) whose mountpoint is not None. With a None
      mountpoint on (2) the grandchild would be listed once. */
  predicate NestedShape(nodes: seq<VolumeNode>) {
    && |nodes| == 3
    && nodes[0].mountpoint.None? && nodes[0].children == [1]
    && Truthy(nodes[1].mountpoint) && nodes[1].children == [2]
    && nodes[2].mountpoint.Some? && nodes[2].children == []
  }

  lemma NestedShapeAppends(nodes: seq<VolumeNode>)
    requires NestedShape(nodes) && WellFormed(nodes)
    ensures Appends(nodes, 0) == [1, 2] && Appends(nodes, 1) == [2] && Appends(nodes, 2) == []
  {
    assert Appends(nodes, 1) == [2];
    assert Appends(nodes, 2) == [];
    assert MountedAmong(nodes, [2], 1) == [2] by {
      assert [2][..0] == [];
      assert MountedAmong(nodes, [], 1) == [];
      assert MountedAmong(nodes, [2], 1) == MountedAmong(nodes, [], 1) + [2];
    }
    assert NestedPiece(nodes, 1) == [1, 2] by {
      assert nodes[1].mountpoint.Some? && nodes[1].children == [2];
      assert NestedPiece(nodes, 1) == [1] + MountedAmong(nodes, [2], 1);
    }
    assert NestedAppends(nodes, [1], 0) == [1, 2] by {
      assert [1][..0] == [];
      assert NestedAppends(nodes, [], 0) == [];
      assert NestedAppends(nodes, [1], 0) == NestedAppends(nodes, [], 0) + NestedPiece(nodes, 1);
    }
    assert Appends(nodes, 0) == NestedAppends(nodes, [1], 0);
  }

  /** Such a sub-volume is appended while the volume without a mountpoint is visited,
      together with its own sub-volume; when it is visited in turn, its sub-volume is
      appended a second time. The list then holds one volume twice, and that volume's
      `index` is the later position. */
  lemma NestedVolumeListedTwice(nodes: seq<VolumeNode>)
    requires NestedShape(nodes) && WellFormed(nodes)
    ensures Run(nodes, [0], 0) == [0, 1, 2, 2]
  {
    NestedShapeAppends(nodes);
    var l1, l2 := [0, 1, 2], [0, 1, 2, 2];
    assert Run(nodes, [0], 0) == Run(nodes, l1, 1) by {
      assert [0] + Appends(nodes, 0) == l1;
    }
    assert Run(nodes, l1, 1) == Run(nodes, l2, 2) by {
      assert l1 + Appends(nodes, l1[1]) == l2;
    }
    assert Run(nodes, l2, 2) == Run(nodes, l2, 3) by {
      assert l2 + Appends(nodes, l2[2]) == l2;
    }
    assert Run(nodes, l2, 3) == Run(nodes, l2, 4) by {
      assert l2 + Appends(nodes, l2[3]) == l2;
    }
  }

  // ---------------------------------------------------------------------------
  // The parser object

  /** The part of the library's `ImageParser` that thumbtack reads and changes: the
      number of disks, the first disk's mountpoint, the volume objects, the first
      disk's volume list and each volume's `index`. `cleaned` records that `clean()`
      has been called. */
  class ImageParser {
    const nodes: seq<VolumeNode>
    const diskCount: nat
    const diskMountpoint: Option<string>
    var volumes: seq<nat>
    var index: seq<int>
    ghost var cleaned: bool

    ghost predicate Valid()
      reads this
    {
      WellFormed(nodes) && Above(nodes, volumes, -1) && |index| == |nodes|
    }

    /** The parser the library builds for an image, as `p` describes it. */
    constructor (p: Parser)
      requires Sound(p)
      ensures Valid() && !cleaned
      ensures nodes == p.nodes && diskCount == p.diskCount && diskMountpoint == p.diskMountpoint
      ensures volumes == p.volumes && index == p.index
    {
      nodes := p.nodes;
      diskCount := p.diskCount;
      diskMountpoint := p.diskMountpoint;
      volumes := p.volumes;
      index := p.index;
      cleaned := false;
    }

    /** `vol.index = str(num_volumes)` followed by appending `vol` to the list. */
    method AppendAt(vol: nat, n: nat, ghost from: nat, ghost index0: seq<int>)
      requires Valid() && vol < |nodes| && n == |volumes| && from <= n
      requires index == Numbered(index0, volumes, from)
      modifies this
      ensures Valid() && volumes == old(volumes) + [vol] && cleaned == old(cleaned)
      ensures index == Numbered(index0, volumes, from)
    {
      assert (volumes + [vol])[..|volumes|] == volumes;
      index := index[vol := n];
      volumes := volumes + [vol];
    }

    /** The branch for a volume with a mountpoint: all its sub-volumes are appended. */
    method AppendEach(ids: seq<nat>, n: nat, ghost from: nat, ghost index0: seq<int>) returns (n': nat)
      requires Valid() && Above(nodes, ids, -1) && n == |volumes| && from <= n
      requires index == Numbered(index0, volumes, from)
      modifies this
      ensures Valid() && volumes == old(volumes) + ids && n' == |volumes| && cleaned == old(cleaned)
      ensures index == Numbered(index0, volumes, from)
    {
      n' := n;
      var j := 0;
      while j < |ids|
        invariant 0 <= j <= |ids|
        invariant Valid() && volumes == old(volumes) + ids[..j] && n' == |volumes| && cleaned == old(cleaned)
        invariant index == Numbered(index0, volumes, from)
      {
        AppendAt(ids[j], n', from, index0);
        n' := n' + 1;
        assert ids[..j + 1] == ids[..j] + [ids[j]];
        j := j + 1;
      }
      assert ids[..j] == ids;
    }

    /** One sub-volume in the loop of `VisitSubVolumes`: its flag, then its append. */
    method VisitOneSub(sub: nat, n: nat, duplicate: bool, vgName: string, ghost from: nat, ghost index0: seq<int>)
      returns (n': nat, duplicate': bool, vgName': string)
      requires Valid() && sub < |nodes| && n == |volumes| && from <= n
      requires index == Numbered(index0, volumes, from)
      modifies this
      ensures Valid() && n' == |volumes| && cleaned == old(cleaned)
      ensures volumes == old(volumes) + (if nodes[sub].mountpoint.Some? then [sub] else [])
      ensures index == Numbered(index0, volumes, from)
      ensures duplicate' == (duplicate || nodes[sub].dupVg)
      ensures vgName' == LastOr(if nodes[sub].dupVg then [nodes[sub].vgName] else [], vgName)
    {
      n', duplicate', vgName' := n, duplicate, vgName;
      if nodes[sub].dupVg {
        duplicate', vgName' := true, nodes[sub].vgName;
      }
      if nodes[sub].mountpoint.Some? {
        AppendAt(sub, n', from, index0);
        n' := n' + 1;
      } else {
        assert volumes + [] == volumes;
      }
    }

    /** The sub-volumes of one sub-volume: the flagged ones are reported and those with
        a mountpoint appended. `duplicate` and `vgName` end up recording whether a
        duplicate volume group was seen and the name of the last one. */
    method VisitSubVolumes(subs: seq<nat>, ghost lo: int, n: nat, duplicate: bool, vgName: string, ghost from: nat, ghost index0: seq<int>)
      returns (n': nat, duplicate': bool, vgName': string)
      requires Valid() && Above(nodes, subs, lo) && lo >= -1 && n == |volumes| && from <= n
      requires index == Numbered(index0, volumes, from)
      modifies this
      ensures Valid() && volumes == old(volumes) + MountedAmong(nodes, subs, lo) && n' == |volumes| && cleaned == old(cleaned)
      ensures index == Numbered(index0, volumes, from)
      ensures duplicate' == (duplicate || FlaggedNames(nodes, subs) != [])
      ensures vgName' == LastOr(FlaggedNames(nodes, subs), vgName)
    {
      n', duplicate', vgName' := n, duplicate, vgName;
      var s := 0;
      while s < |subs|
        invariant 0 <= s <= |subs|
        invariant Valid() && volumes == old(volumes) + MountedAmong(nodes, subs[..s], lo) && n' == |volumes|
        invariant cleaned == old(cleaned) && index == Numbered(index0, volumes, from)
        invariant duplicate' == (duplicate || FlaggedNames(nodes, subs[..s]) != [])
        invariant vgName' == LastOr(FlaggedNames(nodes, subs[..s]), vgName)
      {
        var sub := subs[s];
        ghost var flag: seq<string> := if nodes[sub].dupVg then [nodes[sub].vgName] else [];
        ghost var done := MountedAmong(nodes, subs[..s], lo);
        ghost var piece: seq<nat> := if nodes[sub].mountpoint.Some? then [sub] else [];
        SubVolumeStep(nodes, subs, s, lo);
        ConcatAssoc(old(volumes), done, piece);
        LastOrConcat(FlaggedNames(nodes, subs[..s]), flag, vgName);
        n', duplicate', vgName' := VisitOneSub(sub, n', duplicate', vgName', from, index0);
        assert volumes == (old(volumes) + done) + piece;
        assert done + piece == MountedAmong(nodes, subs[..s + 1], lo);
        s := s + 1;
      }
      assert subs[..s] == subs;
    }

    /** One sub-volume `vol` of a volume whose mountpoint is `None`: its own flag and
        append, then those of its sub-volumes. */
    method VisitNestedOne(vol: nat, n: nat, duplicate: bool, vgName: string, ghost from: nat, ghost index0: seq<int>)
      returns (n': nat, duplicate': bool, vgName': string)
      requires Valid() && vol < |nodes| && n == |volumes| && from <= n
      requires index == Numbered(index0, volumes, from)
      modifies this
      ensures Valid() && n' == |volumes| && cleaned == old(cleaned)
      ensures volumes == old(volumes) + NestedPiece(nodes, vol)
      ensures index == Numbered(index0, volumes, from)
      ensures duplicate' == (duplicate || NestedNames(nodes, vol) != [])
      ensures vgName' == LastOr(NestedNames(nodes, vol), vgName)
    {
      n', duplicate', vgName' := n, duplicate, vgName;
      var own: seq<string> := [];
      if nodes[vol].dupVg {
        duplicate', vgName' := true, nodes[vol].vgName;
        own := [nodes[vol].vgName];
      }
      ghost var head: seq<nat> := if nodes[vol].mountpoint.Some? then [vol] else [];
      if nodes[vol].mountpoint.Some? {
        AppendAt(vol, n', from, index0);
        n' := n' + 1;
      } else {
        assert volumes == old(volumes) + head;
      }
      n', duplicate', vgName' := VisitSubVolumes(nodes[vol].children, vol, n', duplicate', vgName', from, index0);
      ConcatAssoc(old(volumes), head, MountedAmong(nodes, nodes[vol].children, vol));
      LastOrConcat(own, FlaggedNames(nodes, nodes[vol].children), vgName);
    }

    /** The branch for a volume whose mountpoint is `None`: every sub-volume is checked
        for a duplicate volume group and appended when it has a mountpoint, and so is
        every sub-volume of it. */
    method VisitNested(vols: seq<nat>, lo: int, n: nat, duplicate: bool, vgName: string, ghost from: nat, ghost index0: seq<int>)
      returns (n': nat, duplicate': bool, vgName': string)
      requires Valid() && Above(nodes, vols, lo) && lo >= -1 && n == |volumes| && from <= n
      requires index == Numbered(index0, volumes, from)
      modifies this
      ensures Valid() && volumes == old(volumes) + NestedAppends(nodes, vols, lo) && n' == |volumes| && cleaned == old(cleaned)
      ensures index == Numbered(index0, volumes, from)
      ensures duplicate' == (duplicate || NestedEvents(nodes, vols) != [])
      ensures vgName' == LastOr(NestedEvents(nodes, vols), vgName)
    {
      n', duplicate', vgName' := n, duplicate, vgName;
      var j := 0;
      while j < |vols|
        invariant 0 <= j <= |vols|
        invariant Valid() && volumes == old(volumes) + NestedAppends(nodes, vols[..j], lo) && n' == |volumes|
        invariant cleaned == old(cleaned) && index == Numbered(index0, volumes, from)
        invariant duplicate' == (duplicate || NestedEvents(nodes, vols[..j]) != [])
        invariant vgName' == LastOr(NestedEvents(nodes, vols[..j]), vgName)
      {
        NestedStep(nodes, vols, j, lo);
        LastOrConcat(NestedEvents(nodes, vols[..j]), NestedNames(nodes, vols[j]), vgName);
        n', duplicate', vgName' := VisitNestedOne(vols[j], n', duplicate', vgName', from, index0);
        ConcatAssoc(old(volumes), NestedAppends(nodes, vols[..j], lo), NestedPiece(nodes, vols[j]));
        j := j + 1;
      }
      assert vols[..j] == vols;
    }

    /** Visiting volume `x` of the list: its own flag, then the appends of its branch. */
    method Visit(x: nat, n: nat, duplicate: bool, vgName: string, ghost from: nat, ghost index0: seq<int>)
      returns (n': nat, duplicate': bool, vgName': string)
      requires Valid() && x < |nodes| && n == |volumes| && from <= n
      requires index == Numbered(index0, volumes, from)
      modifies this
      ensures Valid() && volumes == old(volumes) + Appends(nodes, x) && n' == |volumes| && cleaned == old(cleaned)
      ensures index == Numbered(index0, volumes, from)
      ensures duplicate' == (duplicate || VisitEvents(nodes, x) != [])
      ensures vgName' == LastOr(VisitEvents(nodes, x), vgName)
    {
      n', duplicate', vgName' := n, duplicate, vgName;
      var v := nodes[x];
      var own: seq<string> := [];
      if v.dupVg {
        duplicate', vgName' := true, v.vgName;
        own := [v.vgName];
      }
      if Truthy(v.mountpoint) {
        n' := AppendEach(v.children, n', from, index0);
        assert own + [] == own;
      } else if v.mountpoint.None? {
        n', duplicate', vgName' := VisitNested(v.children, x, n', duplicate', vgName', from, index0);
        LastOrConcat(own, NestedEvents(nodes, v.children), vgName);
      } else {
        assert own + [] == own;
      }
    }

    /** The loop of `process_image_parser` over the first disk's volume list, which
        grows while it runs. */
    method FlattenVolumes() returns (duplicate: bool, vgName: string)
      requires Valid()
      modifies this
      ensures Valid() && cleaned == old(cleaned)
      ensures volumes == Run(nodes, old(volumes), 0)
      ensures index == Numbered(old(index), volumes, |old(volumes)|)
      ensures duplicate == (AllEvents(nodes, volumes) != []) && vgName == LastOr(AllEvents(nodes, volumes), "")
    {
      ghost var vols0 := volumes;
      ghost var index0 := index;
      var numVolumes := |volumes|;
      duplicate := false;
      vgName := "";
      var k := 0;
      while k < |volumes|
        invariant Valid() && |vols0| <= |volumes| && k <= |volumes| && Above(nodes, vols0, -1)
        invariant Run(nodes, volumes, k) == Run(nodes, vols0, 0)
        invariant numVolumes == |volumes| && cleaned == old(cleaned)
        invariant index == Numbered(index0, volumes, |vols0|)
        invariant duplicate == (AllEvents(nodes, volumes[..k]) != [])
        invariant vgName == LastOr(AllEvents(nodes, volumes[..k]), "")
        decreases SumAbove(nodes, volumes[k..], -1)
      {
        ghost var before := volumes;
        var x := volumes[k];
        RunStep(nodes, volumes, k);
        VisitLowersWeight(nodes, volumes, k);
        LastOrConcat(AllEvents(nodes, volumes[..k]), VisitEvents(nodes, x), "");
        numVolumes, duplicate, vgName := Visit(x, numVolumes, duplicate, vgName, |vols0|, index0);
        assert volumes == before + Appends(nodes, before[k]);
        k := k + 1;
      }
      assert volumes[..k] == volumes;
    }

    /** `process_image_parser` after `init()` has run: checks that there is exactly one
        disk, flattens nested volumes into the first disk's list (visiting appended
        volumes too), then rejects duplicate volume groups and, after them, a list in
        which no volume is mounted. */
    method ProcessImageParser() returns (outcome: Outcome)
      requires Valid()
      modifies this
      ensures Valid()
      ensures diskCount != 1 ==>
        outcome == UnexpectedDisk(diskCount) && volumes == old(volumes) && index == old(index) && cleaned
      ensures diskCount == 1 ==>
        && volumes == Run(nodes, old(volumes), 0)
        && IndexRel(volumes, |old(volumes)|, index, old(index))
        && index == Numbered(old(index), volumes, |old(volumes)|)
        && outcome == Verdict(nodes, volumes)
        && cleaned == (old(cleaned) || outcome == NoMountableVolumes)
    {
      if diskCount != 1 {
        cleaned := true;
        return UnexpectedDisk(diskCount);
      }
      ghost var vols0 := volumes;
      ghost var index0 := index;
      var duplicate, vgName := FlattenVolumes();
      NumberedIsLast(index0, volumes, |vols0|);
      if duplicate || AnyFlagged(nodes, volumes) {
        return DuplicateVolumeGroup(vgName);
      }
      if !AnyMountable(nodes, volumes) {
        cleaned := true;
        return NoMountableVolumes;
      }
      return Processed;
    }
  }
}

/** The slots of a directory on the logical disk: a static root directory or a cluster chain. */
module DirData {
  import opened Bytes
  import opened Geometry
  import opened Window
  import opened FatAccess
  import opened Chains
  import opened Allocator
  import opened FileData
  import opened DirMap
  import Arith

  datatype Table = StaticRoot | Clusters(chain: seq<nat>)

  ghost predicate TableOk(g: Geo, f: seq<nat>, t: Table) {
    match t
    case StaticRoot => g.fsType != Fat32
    case Clusters(s) => |f| == g.nFatent && IsChain(f, s) && InRange(g, s)
  }

  /** Index i is inside the table. */
  ghost predicate HasSlot(g: Geo, t: Table, i: nat) {
    0 < g.csize &&
    match t
    case StaticRoot => i < g.nRootdir
    case Clusters(s) => i / 16 / g.csize < |s|
  }

  /** The sector that holds slot i. */
  ghost function SlotSector(g: Geo, t: Table, i: nat): nat
    requires HasSlot(g, t, i)
  {
    match t
    case StaticRoot => g.dirbase + i / 16
    case Clusters(s) => SectAt(g, s, i / 16)
  }

  /** The cluster of slot i, 0 in the static table. */
  ghost predicate InClusterOf(g: Geo, t: Table, i: nat, clust: nat) {
    HasSlot(g, t, i) && clust == (match t case StaticRoot => 0 case Clusters(s) => s[i / 16 / g.csize])
  }

  /** The cluster number a table is reached from. */
  ghost predicate StartsAt(t: Table, start: nat) {
    match t
    case StaticRoot => start == 0
    case Clusters(s) => s != [] && start == s[0]
  }

  /** A DIR object points at slot i: its index, cluster, sector and offset are those of the slot. */
  ghost predicate PointsAt(g: Geo, t: Table, i: nat, index: nat, clust: nat, sect: nat, dir: nat) {
    && i < 0x1_0000 && index == i && InClusterOf(g, t, i, clust)
    && sect == SlotSector(g, t, i)
    && dir == i % 16 * 32
  }

  /** The 32 bytes of slot i. */
  ghost function SlotAt(g: Geo, d: Disk, t: Table, i: nat): Slot {
    if HasSlot(g, t, i) && SlotSector(g, t, i) < |d| then
      SlotIn(d[SlotSector(g, t, i)], i)
    else
      seq(32, k => 0)
  }

  function SlotIn(w: Sector, i: nat): Slot {
    w[i % 16 * 32..i % 16 * 32 + 32]
  }

  /** Number of slots that an index of 16 bits reaches. */
  ghost function Limit(g: Geo, t: Table): nat {
    var n := match t case StaticRoot => g.nRootdir case Clusters(s) => |s| * (g.csize * 16);
    if n < 0x1_0000 then n else 0x1_0000
  }

  ghost function Slots(g: Geo, d: Disk, t: Table): (r: seq<Slot>)
    ensures |r| == Limit(g, t)
  {
    seq(Limit(g, t), i requires 0 <= i < Limit(g, t) => SlotAt(g, d, t, i))
  }

  /** A sector of the table. */
  ghost predicate InTable(g: Geo, t: Table, s: nat) {
    match t
    case StaticRoot => g.dirbase <= s < g.database
    case Clusters(ch) => 0 < g.csize && g.database <= s && ClusterOf(g, s) in ch
  }

  /** Outside the FAT copies and the sectors of the table nothing differs. */
  ghost predicate OnlyTableChanged(g: Geo, d: Disk, e: Disk, t: Table) {
    && Sound(g, |d|) && |e| == |d|
    && (forall s: nat :: s < |d| && !InFatArea(g, s) && !InTable(g, t, s) ==> e[s] == d[s])
    && (Mirrored(g, d) ==> Mirrored(g, e))
  }

  // ---------------------------------------------------------------- places

  lemma DivSlots(i: nat, c: nat)
    requires 0 < c
    ensures i / 16 / c == i / (c * 16)
    ensures i % (c * 16) / 16 == i / 16 % c && i % (c * 16) % 16 == i % 16
  {
    Arith.DivTwice(i, 16, c);
    Arith.DivUnique(i % (c * 16), 16, i / 16 % c, i % 16);
  }

  lemma LimitIsSlots(g: Geo, t: Table, total: nat, i: nat)
    requires Sound(g, total)
    ensures i < Limit(g, t) <==> HasSlot(g, t, i) && i < 0x1_0000
  {
    if t.Clusters? {
      DivSlots(i, g.csize);
      Arith.DivBelow(i, g.csize * 16, |t.chain|);
    }
  }

  /** The sector of a slot belongs to the table and may be written through the window. */
  lemma SlotSectorInside(g: Geo, total: nat, f: seq<nat>, t: Table, i: nat)
    requires Sound(g, total) && TableOk(g, f, t) && HasSlot(g, t, i)
    ensures 0 < SlotSector(g, t, i) < total && !InFatArea(g, SlotSector(g, t, i))
    ensures InTable(g, t, SlotSector(g, t, i)) && Dirtyable(g, total, SlotSector(g, t, i))
    ensures !InFat(g, SlotSector(g, t, i))
  {
    hide IsChain, InRange, ClusterOf;
    match t
    case StaticRoot =>
      assert i / 16 < g.nRootdir / 16;
    case Clusters(s) =>
      hide Sound;
      SoundCsize(g, total);
      SectAtInside(g, total, s, i / 16);
      assert s[i / 16 / g.csize] in s;
      DataIsDirtyable(g, total, SectAt(g, s, i / 16));
  }

  lemma DataIsDirtyable(g: Geo, total: nat, s: nat)
    requires Sound(g, total) && g.database <= s < total
    ensures Dirtyable(g, total, s) && !InFat(g, s) && 0 < s
  {
  }

  /** Different slots have different places. */
  lemma SlotPlace(g: Geo, total: nat, f: seq<nat>, t: Table, i: nat, j: nat)
    requires Sound(g, total) && TableOk(g, f, t) && HasSlot(g, t, i) && HasSlot(g, t, j)
    requires SlotSector(g, t, i) == SlotSector(g, t, j)
    ensures i / 16 == j / 16
  {
    hide IsChain, InRange, Sound;
    match t
    case StaticRoot =>
    case Clusters(s) =>
      SectAtInjective(g, total, f, s, i / 16, j / 16);
  }

  // ---------------------------------------------------------------- changing one slot

  /** A slot laid over its sector changes that slot and no other. */
  lemma PatchSlot(g: Geo, d: Disk, f: seq<nat>, t: Table, i: nat, e: Slot, j: nat)
    requires Sound(g, |d|) && TableOk(g, f, t) && HasSlot(g, t, i) && SlotSector(g, t, i) < |d|
    ensures var s := SlotSector(g, t, i);
      SlotAt(g, d[s := Splice(d[s], i % 16 * 32, e)], t, j) == if j == i then e else SlotAt(g, d, t, j)
  {
    hide Sound, TableOk, HasSlot, SlotSector;
    SoundCsize(g, |d|);
    if HasSlot(g, t, j) {
      if SlotSector(g, t, j) == SlotSector(g, t, i) {
        SlotPlace(g, |d|, f, t, i, j);
        SpliceSlot(d[SlotSector(g, t, i)], i, e, j);
      }
    }
  }

  lemma SpliceSlot(w: Sector, i: nat, e: Slot, j: nat)
    requires i / 16 == j / 16
    ensures SlotIn(Splice(w, i % 16 * 32, e), j) == if j == i then e else SlotIn(w, j)
  {
  }

  /** The same on the whole table. */
  lemma PatchTable(g: Geo, d: Disk, f: seq<nat>, t: Table, i: nat, e: Slot)
    requires Sound(g, |d|) && TableOk(g, f, t) && HasSlot(g, t, i) && i < 0x1_0000
    ensures SlotSector(g, t, i) < |d| && i < Limit(g, t)
    ensures var s := SlotSector(g, t, i); var x := d[s := Splice(d[s], i % 16 * 32, e)];
      && Slots(g, x, t) == Slots(g, d, t)[i := e]
      && OnlyTableChanged(g, d, x, t) && FatUntouched(g, d, x)
  {
    SlotSectorInside(g, |d|, f, t, i);
    LimitIsSlots(g, t, |d|, i);
    SoundCsize(g, |d|);
    hide SlotSector, TableOk, HasSlot, SlotAt, InTable, Limit;
    var s := SlotSector(g, t, i);
    var x := d[s := Splice(d[s], i % 16 * 32, e)];
    forall j | 0 <= j < Limit(g, t)
      ensures SlotAt(g, x, t, j) == if j == i then e else SlotAt(g, d, t, j)
    {
      PatchSlot(g, d, f, t, i, e, j);
    }
    assert Slots(g, x, t) == Slots(g, d, t)[i := e];
    OneSectorMirror(g, d, s, x[s]);
  }

  /** A sector outside the FAT copies does not disturb them. */
  lemma OneSectorMirror(g: Geo, d: Disk, s: nat, w: Sector)
    requires Sound(g, |d|) && s < |d| && !InFatArea(g, s)
    ensures FatUntouched(g, d, d[s := w])
    ensures Mirrored(g, d) ==> Mirrored(g, d[s := w])
  {
    forall k: nat | InFat(g, k) && g.nFats == 2
      ensures InFatArea(g, k) && InFatArea(g, k + g.fatSize)
    {
    }
  }

  // ---------------------------------------------------------------- stretching

  function ZeroRun(cc: nat): (r: seq<Byte>)
    ensures |r| == cc * 512 && forall i :: 0 <= i < |r| ==> r[i] == 0
  {
    seq(cc * 512, i => 0)
  }

  /** The logical disk after the links of a stretched table and its zeroed cluster are written. */
  ghost predicate Stretched(g: Geo, d: Disk, e: Disk, s: seq<nat>, r: nat) {
    && Sound(g, |d|) && |e| == |d| && 2 <= r < g.nFatent && r !in s
    && (forall k: nat :: k < |d| && !InFatArea(g, k) ==>
          if g.database <= k && ClusterOf(g, k) == r then e[k] == ZeroSector() else e[k] == d[k])
    && (Mirrored(g, d) ==> Mirrored(g, e))
  }

  /** A slot of the stretched table: an old one, or zero. */
  lemma StretchedSlot(g: Geo, d: Disk, e: Disk, s: seq<nat>, r: nat, i: nat)
    requires Stretched(g, d, e, s, r) && InRange(g, s) && HasSlot(g, Clusters(s + [r]), i)
    ensures HasSlot(g, Clusters(s), i) ==> SlotAt(g, e, Clusters(s + [r]), i) == SlotAt(g, d, Clusters(s), i)
    ensures !HasSlot(g, Clusters(s), i) ==> SlotAt(g, e, Clusters(s + [r]), i) == SlotIn(ZeroSector(), i)
  {
    SoundCsize(g, |d|);
    StretchedSector(g, d, e, s, r, i / 16);
    hide Sound, Mirrored, ClusterOf, Stretched, InRange, SectAt;
  }

  /** A sector of the stretched table. */
  lemma StretchedSector(g: Geo, d: Disk, e: Disk, s: seq<nat>, r: nat, k: nat)
    requires Stretched(g, d, e, s, r) && InRange(g, s) && 0 < g.csize && k / g.csize <= |s|
    ensures InRange(g, s + [r]) && SectAt(g, s + [r], k) < |d| == |e|
    ensures if k / g.csize < |s|
      then SectAt(g, s + [r], k) == SectAt(g, s, k) && e[SectAt(g, s, k)] == d[SectAt(g, s, k)]
      else e[SectAt(g, s + [r], k)] == ZeroSector()
  {
    var t := s + [r];
    assert InRange(g, t);
    hide Sound, Mirrored, ClusterOf;
    SectAtInside(g, |d|, t, k);
    if k / g.csize < |s| {
      assert t[k / g.csize] == s[k / g.csize] && s[k / g.csize] in s;
    }
  }

  /** The table grows by zeroed slots. */
  lemma StretchedTable(g: Geo, d: Disk, e: Disk, s: seq<nat>, r: nat) returns (z: seq<Slot>)
    requires Stretched(g, d, e, s, r) && InRange(g, s)
    ensures Slots(g, e, Clusters(s + [r])) == Slots(g, d, Clusters(s)) + z
    ensures ZeroMarked(z)
    ensures OnlyTableChanged(g, d, e, Clusters(s + [r]))
  {
    var t, t' := Clusters(s), Clusters(s + [r]);
    SoundCsize(g, |d|);
    Arith.MulMono(|s|, |s + [r]|, g.csize * 16);
    assert Limit(g, t) <= Limit(g, t');
    z := Slots(g, e, t')[Limit(g, t)..];
    hide SlotAt, HasSlot, Limit;
    forall i | 0 <= i < Limit(g, t')
      ensures if i < Limit(g, t) then SlotAt(g, e, t', i) == SlotAt(g, d, t, i) else SlotAt(g, e, t', i)[0] == 0
    {
      LimitIsSlots(g, t, |d|, i);
      LimitIsSlots(g, t', |d|, i);
      StretchedSlot(g, d, e, s, r, i);
    }
    assert Slots(g, e, t') == Slots(g, d, t) + z;
    assert r in s + [r];
    hide ClusterOf;
  }

  /** Allocating and then zeroing cluster r is a stretch by r. */
  lemma ZeroedIsStretched(g: Geo, d: Disk, d1: Disk, s: seq<nat>, r: nat)
    requires OnlyFatChanged(g, d, d1) && 2 <= r < g.nFatent && r !in s
    ensures g.database <= Clust2Sect(g, r) && Clust2Sect(g, r) + g.csize <= |d1|
    ensures Stretched(g, d, PutRun(d1, Clust2Sect(g, r), ZeroRun(g.csize)), s, r)
    ensures Fat(g, PutRun(d1, Clust2Sect(g, r), ZeroRun(g.csize))) == Fat(g, d1)
  {
    SoundCsize(g, |d|);
    ClusterSector(g, |d|, r, 0);
    ClusterSector(g, |d|, r, g.csize - 1);
    var e := PutRun(d1, Clust2Sect(g, r), ZeroRun(g.csize));
    hide Fat;
    forall k: nat | k < |d| && !InFatArea(g, k)
      ensures if g.database <= k && ClusterOf(g, k) == r then e[k] == ZeroSector() else e[k] == d[k]
    {
      ZeroedSector(g, d1, r, k);
    }
    forall k: nat | k < |d| && InFatArea(g, k)
      ensures e[k] == d1[k]
    {
    }
    hide Clust2Sect, ClusterOf, PutRun;
    FatPartMirror(g, d1, e);
    SameLinks(g, d1, e);
  }

  /** The FAT copies stay equal when none of their sectors changes. */
  lemma FatPartMirror(g: Geo, d: Disk, e: Disk)
    requires Sound(g, |d|) && FatUntouched(g, d, e)
    ensures Mirrored(g, d) ==> Mirrored(g, e)
  {
    forall k: nat | InFat(g, k) && g.nFats == 2
      ensures InFatArea(g, k) && InFatArea(g, k + g.fatSize)
    {
    }
  }

  lemma ZeroedSector(g: Geo, d1: Disk, r: nat, k: nat)
    requires Sound(g, |d1|) && 2 <= r < g.nFatent && k < |d1|
    requires Clust2Sect(g, r) + g.csize <= |d1|
    ensures PutRun(d1, Clust2Sect(g, r), ZeroRun(g.csize))[k]
      == if g.database <= k && ClusterOf(g, k) == r then ZeroSector() else d1[k]
  {
    var f := Clust2Sect(g, r);
    SoundCsize(g, |d1|);
    Arith.DivUnique(|ZeroRun(g.csize)|, 512, g.csize, 0);
    if f <= k < f + g.csize {
      ClusterSector(g, |d1|, r, k - f);
    } else if g.database <= k && ClusterOf(g, k) == r {
      Arith.DivMod(k - g.database, g.csize);
    }
  }

  // ---------------------------------------------------------------- the next slot

  /** The next slot of the same sector. */
  lemma NextInSector(g: Geo, total: nat, t: Table, i: nat, clust: nat)
    requires Sound(g, total) && InClusterOf(g, t, i, clust) && (i + 1) % 16 != 0
    ensures InClusterOf(g, t, i + 1, clust) && SlotSector(g, t, i + 1) == SlotSector(g, t, i)
  {
    Arith.DivInside(i, 16, 1);
  }

  /** The first slot of the next sector of the same cluster or of the static table. */
  lemma NextSector(g: Geo, total: nat, t: Table, i: nat, clust: nat)
    requires Sound(g, total) && InClusterOf(g, t, i, clust) && (i + 1) % 16 == 0
    requires t.Clusters? ==> (i + 1) / 16 % g.csize != 0
    requires t.StaticRoot? ==> i + 1 < g.nRootdir
    ensures InClusterOf(g, t, i + 1, clust) && SlotSector(g, t, i + 1) == SlotSector(g, t, i) + 1
  {
    hide Sound, Clust2Sect;
    SoundCsize(g, total);
    Arith.DivStep(i, 16);
    if t.Clusters? {
      Arith.DivStep(i / 16, g.csize);
    }
  }

  /** The first slot of the next cluster. */
  lemma NextClusterSlot(g: Geo, s: seq<nat>, i: nat)
    requires HasSlot(g, Clusters(s), i) && (i + 1) % 16 == 0 && (i + 1) / 16 % g.csize == 0
    ensures (i + 1) / 16 / g.csize == i / 16 / g.csize + 1
    ensures HasSlot(g, Clusters(s), i + 1) <==> i / 16 / g.csize + 1 < |s|
    ensures HasSlot(g, Clusters(s), i + 1) ==>
      SlotSector(g, Clusters(s), i + 1) == Clust2Sect(g, s[i / 16 / g.csize + 1])
  {
    hide Clust2Sect;
    Arith.DivStep(i, 16);
    Arith.DivStep(i / 16, g.csize);
  }

  /** Cluster number 0 marks the static table. */
  lemma ClusterZero(g: Geo, f: seq<nat>, t: Table, i: nat, clust: nat)
    requires TableOk(g, f, t) && InClusterOf(g, t, i, clust)
    ensures clust == 0 <==> t.StaticRoot?
    ensures t.StaticRoot? ==> (HasSlot(g, t, i + 1) <==> i + 1 < g.nRootdir)
  {
    if t.Clusters? {
      assert clust in t.chain;
    }
  }

  /** Arriving at the next cluster c of a table that is s, or s grown by c. */
  lemma ArriveInCluster(g: Geo, s: seq<nat>, s': seq<nat>, i: nat, c: nat)
    requires HasSlot(g, Clusters(s), i) && (i + 1) % 16 == 0 && (i + 1) / 16 % g.csize == 0
    requires s' == s || s' == s + [c]
    requires i / 16 / g.csize + 1 < |s'| && c == s'[i / 16 / g.csize + 1]
    ensures InClusterOf(g, Clusters(s'), i + 1, c) && SlotSector(g, Clusters(s'), i + 1) == Clust2Sect(g, c)
  {
    hide Clust2Sect;
    NextClusterSlot(g, s, i);
    NextClusterSlot(g, s', i);
  }

  // ---------------------------------------------------------------- slots in the window

  lemma SlotsAre(g: Geo, d: Disk, t: Table, total: nat, i: nat)
    requires Sound(g, total) && HasSlot(g, t, i) && i < 0x1_0000
    ensures i < |Slots(g, d, t)| && Slots(g, d, t)[i] == SlotAt(g, d, t, i)
  {
    hide SlotAt;
    LimitIsSlots(g, t, total, i);
  }

  /** Index n is one past the last slot. */
  lemma EndOfSlots(g: Geo, d: Disk, t: Table, total: nat, n: nat)
    requires Sound(g, total) && 0 < n && HasSlot(g, t, n - 1) && n <= 0x1_0000
    requires n == 0x1_0000 || !HasSlot(g, t, n)
    ensures n == |Slots(g, d, t)|
  {
    hide SlotAt;
    LimitIsSlots(g, t, total, n - 1);
    LimitIsSlots(g, t, total, n);
  }

  /** Overwriting the first byte of a slot in its sector. */
  lemma MarkInSector(w: Sector, i: nat, b: Byte)
    ensures Splice(w, i % 16 * 32, [b]) == Splice(w, i % 16 * 32, SlotIn(w, i)[0 := b])
  {
  }

  lemma FirstSlot(g: Geo, total: nat, f: seq<nat>, t: Table)
    requires Sound(g, total) && TableOk(g, f, t)
    ensures HasSlot(g, t, 0)
  {
    Arith.DivUnique(0, g.csize, 0, 0);
  }

  lemma OnlyTableRefl(g: Geo, d: Disk, t: Table)
    requires Sound(g, |d|)
    ensures OnlyTableChanged(g, d, d, t)
  {
  }

  lemma OnlyTableTrans(g: Geo, d: Disk, e: Disk, f: Disk, t: Table)
    requires OnlyTableChanged(g, d, e, t) && OnlyTableChanged(g, e, f, t)
    ensures OnlyTableChanged(g, d, f, t)
  {
  }

  /** Writing a slot through the window. */
  lemma StoreSlot(g: Geo, d: Disk, f: seq<nat>, t: Table, i: nat, off: nat, src: seq<Byte>, e: Slot)
    requires Sound(g, |d|) && TableOk(g, f, t) && HasSlot(g, t, i) && i < 0x1_0000 && f == Fat(g, d)
    requires SlotSector(g, t, i) < |d| && off == i % 16 * 32 && off + |src| <= 512
    requires Splice(d[SlotSector(g, t, i)], off, src) == Splice(d[SlotSector(g, t, i)], off, e)
    ensures Dirtyable(g, |d|, SlotSector(g, t, i)) && i < |Slots(g, d, t)|
    ensures var x := Store(g, d, SlotSector(g, t, i), Splice(d[SlotSector(g, t, i)], off, src));
      && Slots(g, x, t) == Slots(g, d, t)[i := e]
      && OnlyTableChanged(g, d, x, t) && Fat(g, x) == f
  {
    hide Fat, Slots, OnlyTableChanged, TableOk, SlotSector, Sound, Mirrored;
    SlotSectorInside(g, |d|, f, t, i);
    PatchTable(g, d, f, t, i, e);
    var s := SlotSector(g, t, i);
    SameLinks(g, d, d[s := Splice(d[s], off, e)]);
  }
}

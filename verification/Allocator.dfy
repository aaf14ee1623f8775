/** remove_chain, create_chain and the free-cluster scan of f_getfree. */
module Allocator {
  import opened Bytes
  import opened Geometry
  import opened Window
  import opened FatAccess
  import opened Chains
  import Arith

  /** The FAT of a mounted volume as an array of links. */
  ghost function Links(fs: FatFs): (f: seq<nat>)
    requires fs.Valid()
    reads fs, fs.win
    ensures |f| == fs.geo.nFatent
  {
    Fat(fs.geo, fs.Logical())
  }

  /** The end mark put_fat leaves for the value 0x0FFFFFFF. */
  function EndMark(t: FatType): nat {
    EntryRange(t) - 1
  }

  /** From d to e nothing outside the FAT copies changed, and the copies stayed equal. */
  ghost predicate OnlyFatChanged(g: Geo, d: Disk, e: Disk) {
    && Sound(g, |d|) && |e| == |d|
    && (forall s: nat :: s < |d| && !InFatArea(g, s) ==> e[s] == d[s])
    && (Mirrored(g, d) ==> Mirrored(g, e))
  }

  /** What the mounted volume keeps about free clusters; right: the free count is known and is that of the FAT. */
  datatype Books = Books(free: Dword, last: Dword, flag: bool, right: bool)

  ghost function BooksOf(fs: FatFs): Books
    requires fs.Valid()
    reads fs, fs.win
  {
    Books(fs.freeClust, fs.lastClust, fs.fsiFlag, fs.freeClust == FreeCount(Links(fs)))
  }

  /**
   * From a to b a right count stays right and an unknown one unknown, and whatever FSInfo would have
   * to tell is marked for writing: a new count always, a new hint when the count is known.
   */
  predicate Follows(a: Books, b: Books) {
    && (a.right ==> b.right)
    && (a.free == 0xFFFFFFFF ==> b.free == 0xFFFFFFFF)
    && (a.flag ==> b.flag)
    && (b.free != a.free ==> b.flag)
    && (b.last != a.last && b.free != 0xFFFFFFFF ==> b.flag)
  }

  lemma StoredIsOnlyFat(g: Geo, d: Disk, e: Disk, c: nat, v: nat, top: nat)
    requires LinkStored(g, d, e, c, v, top)
    ensures OnlyFatChanged(g, d, e) && Fat(g, e) == Fat(g, d)[c := v]
  {
  }

  lemma OnlyFatTrans(g: Geo, d: Disk, e: Disk, f: Disk)
    requires OnlyFatChanged(g, d, e) && OnlyFatChanged(g, e, f)
    ensures OnlyFatChanged(g, d, f)
  {
  }

  lemma EndMarkFits(g: Geo, total: nat)
    requires Sound(g, total)
    ensures 3 <= g.nFatent <= EndMark(g.fsType) < EntryRange(g.fsType) && EndMark(g.fsType) < 0xFFFFFFFF
    ensures 0x0FFFFFFF % EntryRange(g.fsType) == EndMark(g.fsType)
  {
  }

  /** put_fat seen from the layer of links. */
  method SetLink(fs: FatFs, c: nat, v: Dword)
    requires fs.Valid() && 2 <= c < fs.geo.nFatent
    modifies fs`disk, fs`winsect, fs`wflag, fs.win
    ensures fs.Valid() && Links(fs) == old(Links(fs))[c := v % EntryRange(fs.geo.fsType)]
    ensures OnlyFatChanged(fs.geo, old(fs.Logical()), fs.Logical())
  {
    hide Fat, LinkStored, OnlyFatChanged, NewNibble;
    ghost var d := fs.Logical();
    var ok := PutFat(fs, c, v);
    StoredIsOnlyFat(fs.geo, d, fs.Logical(), c, v % EntryRange(fs.geo.fsType), NewNibble(fs.geo, d, c, v));
  }

  /** get_fat seen from the layer of links. */
  method GetLink(fs: FatFs, c: nat) returns (r: nat)
    requires fs.Valid()
    modifies fs`disk, fs`winsect, fs`wflag, fs.win
    ensures fs.Valid() && fs.Logical() == old(fs.Logical())
    ensures r == if 2 <= c < fs.geo.nFatent then Links(fs)[c] else 1
    ensures r < 0x1000_0000
  {
    hide FatByte, Sound, Value12;
    r := GetFat(fs, c);
  }

  // ---------------------------------------------------------------- remove_chain

  /**
   * remove_chain. On every FAT, cyclic ones included, the loop ends; the links become what
   * `Removed` says, a known free count stays right, and nothing outside the FAT changes.
   */
  method RemoveChain(fs: FatFs, clst: nat) returns (ok: bool)
    requires fs.Valid()
    modifies fs`disk, fs`winsect, fs`wflag, fs`freeClust, fs`fsiFlag, fs.win
    ensures fs.Valid() && OnlyFatChanged(fs.geo, old(fs.Logical()), fs.Logical())
    ensures clst < 2 || clst >= fs.geo.nFatent ==> !ok && fs.Logical() == old(fs.Logical())
    ensures 2 <= clst < fs.geo.nFatent ==> Removal(Links(fs), ok) == Removed(old(Links(fs)), clst)
    ensures Follows(old(BooksOf(fs)), BooksOf(fs)) && fs.lastClust == old(fs.lastClust)
    ensures fs.fsiFlag == (old(fs.fsiFlag) || (old(fs.freeClust) != 0xFFFFFFFF && Links(fs) != old(Links(fs))))
  {
    hide Fat, OnlyFatChanged, FreeCount, Sound;
    OnlyFatRefl(fs.geo, fs.Logical());
    EndMarkFits(fs.geo, |fs.disk|);
    if clst < 2 || clst >= fs.geo.nFatent {
      return false;
    }
    ok := true;
    var c := clst;
    while c < fs.geo.nFatent
      invariant fs.Valid() && 2 <= c && ok
      invariant OnlyFatChanged(fs.geo, old(fs.Logical()), fs.Logical())
      invariant Removed(Links(fs), c) == Removed(old(Links(fs)), clst)
      invariant Follows(old(BooksOf(fs)), BooksOf(fs))
      invariant FreeCount(old(Links(fs))) <= FreeCount(Links(fs))
      invariant Links(fs) == old(Links(fs)) || FreeCount(old(Links(fs))) < FreeCount(Links(fs))
      invariant fs.fsiFlag == (old(fs.fsiFlag) || (old(fs.freeClust) != 0xFFFFFFFF && Links(fs) != old(Links(fs))))
      invariant Links(fs) == old(Links(fs)) ==> fs.freeClust == old(fs.freeClust)
      decreases |Links(fs)| - FreeCount(Links(fs))
    {
      ghost var f, d := Links(fs), fs.Logical();
      FreeCountStore(f, c, 0);
      FreeCountBound(f);
      FreeCountBound(f[c := 0]);
      var nxt := GetLink(fs, c);
      if nxt == 0 {
        break;
      }
      if nxt == 1 {
        ok := false;
        break;
      }
      SetLink(fs, c, 0);
      OnlyFatTrans(fs.geo, old(fs.Logical()), d, fs.Logical());
      if fs.freeClust != 0xFFFFFFFF {
        fs.freeClust := W32(fs.freeClust + 1);
        fs.fsiFlag := true;
      }
      c := nxt;
    }
  }

  lemma OnlyFatRefl(g: Geo, d: Disk)
    requires Sound(g, |d|)
    ensures OnlyFatChanged(g, d, d)
  {
  }

  // ---------------------------------------------------------------- create_chain

  /** Rank of cluster c in the circular scan that starts behind scl. */
  function ScanRank(n: nat, scl: nat, c: nat): int {
    if c > scl then c - scl else n - scl + c
  }

  /** Where the scan starts: the hint for a new chain, the stretched cluster otherwise. */
  function ScanStart(n: nat, clst: nat, last: nat): nat {
    if clst != 0 then clst else if last == 0 || last >= n then 1 else last
  }

  /** Every cluster the scan meets before rank r is neither free nor invalid. */
  ghost predicate AllocatedBefore(f: seq<nat>, scl: nat, r: int) {
    forall c :: 2 <= c < |f| && ScanRank(|f|, scl, c) < r ==> f[c] >= 2
  }

  /**
   * What the scan finds: the first cluster in circular order whose link is below 2, when it is
   * free; 1 when that link is 1; 0 when there is no such cluster at all.
   */
  ghost predicate ScanFinds(f: seq<nat>, scl: nat, r: nat) {
    || (r == 0 && forall c :: 2 <= c < |f| ==> f[c] >= 2)
    || (r == 1 && exists c :: 2 <= c < |f| && f[c] == 1 && AllocatedBefore(f, scl, ScanRank(|f|, scl, c)))
    || (2 <= r < |f| && f[r] == 0 && AllocatedBefore(f, scl, ScanRank(|f|, scl, r)))
  }

  /** The circular scan of create_chain. */
  method Scan(fs: FatFs, scl: nat) returns (ncl: nat)
    requires fs.Valid() && 1 <= scl < fs.geo.nFatent
    modifies fs`disk, fs`winsect, fs`wflag, fs.win
    ensures fs.Valid() && fs.Logical() == old(fs.Logical())
    ensures ScanFinds(Links(fs), scl, ncl)
  {
    hide Fat, Sound;
    ncl := scl;
    ghost var f := Links(fs);
    ghost var wrapped := false;
    while true
      invariant fs.Valid() && fs.Logical() == old(fs.Logical())
      invariant if wrapped then 2 <= ncl < scl else scl <= ncl < fs.geo.nFatent
      invariant AllocatedBefore(f, scl, if wrapped then ScanRank(|f|, scl, ncl) + 1 else ncl - scl + 1)
      decreases if wrapped then 0 else 1, if wrapped then scl - ncl else fs.geo.nFatent - ncl
    {
      ncl := ncl + 1;
      if ncl >= fs.geo.nFatent {
        ncl := 2;
        wrapped := true;
        if ncl > scl {
          return 0;
        }
      }
      var cs := GetLink(fs, ncl);
      if cs == 0 {
        return;
      }
      if cs == 1 {
        return 1;
      }
      if ncl == scl {
        return 0;
      }
    }
  }

  /** Cluster r allocated with end mark eoc, and linked behind clst unless that is 0. */
  function Grown(f: seq<nat>, clst: nat, r: nat, eoc: nat): seq<nat>
    requires clst < |f| && r < |f|
  {
    if clst == 0 then f[r := eoc] else f[r := eoc][clst := r]
  }

  lemma GrownDiffers(f: seq<nat>, clst: nat, r: nat, eoc: nat)
    requires clst < |f| && r < |f| && f[r] == 0 && eoc != 0 && (clst == 0 || f[clst] != 0)
    ensures Grown(f, clst, r, eoc) != f
  {
    if r != 0 || clst != 0 {
      assert r != clst;
    }
    assert Grown(f, clst, r, eoc)[r] != 0;
  }

  /** The allocating end of create_chain. */
  method Commit(fs: FatFs, clst: nat, ncl: nat)
    requires fs.Valid() && 2 <= ncl < fs.geo.nFatent && Links(fs)[ncl] == 0
    requires clst == 0 || (2 <= clst < fs.geo.nFatent && Links(fs)[clst] >= fs.geo.nFatent)
    modifies fs`disk, fs`winsect, fs`wflag, fs`lastClust, fs`freeClust, fs`fsiFlag, fs.win
    ensures fs.Valid() && OnlyFatChanged(fs.geo, old(fs.Logical()), fs.Logical())
    ensures Links(fs) == Grown(old(Links(fs)), clst, ncl, EndMark(fs.geo.fsType)) && fs.lastClust == ncl
    ensures Follows(old(BooksOf(fs)), BooksOf(fs))
    ensures fs.freeClust == (if old(fs.freeClust) == 0xFFFFFFFF then 0xFFFFFFFF else W32(old(fs.freeClust) + 0xFFFFFFFF))
    ensures fs.fsiFlag == (old(fs.fsiFlag) || old(fs.freeClust) != 0xFFFFFFFF)
  {
    hide Fat, Sound, OnlyFatChanged, FreeCount;
    EndMarkFits(fs.geo, |fs.disk|);
    ghost var d := fs.Logical();
    FreeCountStore(Links(fs), ncl, EndMark(fs.geo.fsType));
    FreeCountBound(Links(fs));
    SetLink(fs, ncl, 0x0FFFFFFF);
    if clst != 0 {
      ghost var e := fs.Logical();
      FreeCountStore(Links(fs), clst, ncl);
      SetLink(fs, clst, ncl);
      OnlyFatTrans(fs.geo, d, e, fs.Logical());
    }
    fs.lastClust := ncl;
    if fs.freeClust != 0xFFFFFFFF {
      fs.freeClust := W32(fs.freeClust + 0xFFFFFFFF);
      fs.fsiFlag := true;
    }
  }

  /**
   * create_chain: 1 for a cluster that cannot be stretched, the existing next cluster when there
   * is one, otherwise what the scan finds, allocated and linked behind clst.
   */
  method CreateChain(fs: FatFs, clst: nat) returns (r: nat)
    requires fs.Valid()
    modifies fs`disk, fs`winsect, fs`wflag, fs`lastClust, fs`freeClust, fs`fsiFlag, fs.win
    ensures fs.Valid() && OnlyFatChanged(fs.geo, old(fs.Logical()), fs.Logical())
    ensures r < fs.geo.nFatent
    ensures Follows(old(BooksOf(fs)), BooksOf(fs))
    ensures fs.Logical() == old(fs.Logical()) ==> BooksOf(fs) == old(BooksOf(fs))
    ensures fs.Logical() != old(fs.Logical()) ==>
      && fs.lastClust == r
      && fs.freeClust == (if old(fs.freeClust) == 0xFFFFFFFF then 0xFFFFFFFF else W32(old(fs.freeClust) + 0xFFFFFFFF))
      && fs.fsiFlag == (old(fs.fsiFlag) || old(fs.freeClust) != 0xFFFFFFFF)
    ensures var f, n := old(Links(fs)), fs.geo.nFatent;
      if clst != 0 && (clst < 2 || clst >= n || f[clst] < 2) then
        r == 1 && fs.Logical() == old(fs.Logical())
      else if clst != 0 && f[clst] < n then
        r == f[clst] && fs.Logical() == old(fs.Logical())
      else
        && ScanFinds(f, ScanStart(n, clst, old(fs.lastClust)), r)
        && (r < 2 ==> fs.Logical() == old(fs.Logical()))
        && (r >= 2 ==> fs.lastClust == r && Links(fs) == Grown(f, clst, r, EndMark(fs.geo.fsType)))
  {
    hide Fat, Sound, OnlyFatChanged, FreeCount, ScanFinds, Grown;
    OnlyFatRefl(fs.geo, fs.Logical());
    EndMarkFits(fs.geo, |fs.disk|);
    ghost var f := Links(fs);
    var scl := fs.lastClust;
    if clst == 0 {
      if scl == 0 || scl >= fs.geo.nFatent {
        scl := 1;
      }
    } else {
      var cs := GetLink(fs, clst);
      if cs < 2 {
        return 1;
      }
      if cs < fs.geo.nFatent {
        return cs;
      }
      scl := clst;
    }
    r := Scan(fs, scl);
    ScanResult(f, scl, r);
    if r < 2 {
      return;
    }
    GrownDiffers(f, clst, r, EndMark(fs.geo.fsType));
    Commit(fs, clst, r);
  }

  lemma ScanResult(f: seq<nat>, scl: nat, r: nat)
    requires ScanFinds(f, scl, r)
    ensures r < 2 || (2 <= r < |f| && f[r] == 0)
  {
  }

  /** Some cluster holds the link 1, which no chain and no free cluster does. */
  ghost predicate HasOne(f: seq<nat>) {
    exists c :: 2 <= c < |f| && f[c] == 1
  }

  /** A FAT that is a family of chains and free clusters has no link 1. */
  lemma FamilyHasNoOne(f: seq<nat>, cs: set<seq<nat>>)
    requires Partition(f, cs)
    ensures !HasOne(f)
  {
    if c :| 2 <= c < |f| && f[c] == 1 {
      assert Covered(cs, c);
      var s :| s in cs && c in s;
      ChainAllocated(f, s, c);
    }
  }

  /**
   * Whatever the hint, the scan returns 0 exactly when no cluster is free and none holds the link 1.
   * So "0 exactly when no cluster is free" fails exactly on a FAT without free clusters that has a link 1.
   */
  lemma ScanFailsOnlyWhenFull(f: seq<nat>, scl: nat, r: nat)
    requires |f| >= 2 && ScanFinds(f, scl, r)
    ensures r == 0 <==> FreeCount(f) == 0 && !HasOne(f)
    ensures (r == 0 <==> FreeCount(f) == 0) <==> (FreeCount(f) > 0 || !HasOne(f))
    ensures r == 1 ==> HasOne(f)
  {
    FreeBelowBound(f, |f|);
  }

  /** On this FAT every allocation, whatever its start, answers 1 although no cluster is free. */
  lemma ScanMeetsOne(scl: nat, r: nat)
    requires 1 <= scl < 3
    ensures FreeCount([9, 9, 1]) == 0
    ensures ScanFinds([9, 9, 1], scl, r) <==> r == 1
  {
    var f := [9, 9, 1];
    assert FreeBelow(f, 2) == 0;
    assert f[2] == 1 && AllocatedBefore(f, scl, ScanRank(|f|, scl, 2));
  }

  // ---------------------------------------------------------------- f_getfree

  /** Number of zero entries among the first n, the two reserved entries included. */
  function ZerosBelow(f: seq<nat>, n: nat): nat
    requires n <= |f|
  {
    if n == 0 then 0 else ZerosBelow(f, n - 1) + if f[n - 1] == 0 then 1 else 0
  }

  /** Counting all zero entries counts the free clusters and the reserved entries that are zero. */
  lemma {:induction false} ZerosAreFree(f: seq<nat>, n: nat)
    requires 2 <= n <= |f|
    ensures ZerosBelow(f, n) == FreeBelow(f, n) + ZerosBelow(f, 2)
  {
    if n > 2 {
      ZerosAreFree(f, n - 1);
    }
  }

  /** c is the first cluster that holds the link 1. */
  ghost predicate FirstOne(f: seq<nat>, c: nat) {
    2 <= c < |f| && f[c] == 1 && forall b :: 2 <= b < c ==> f[b] != 1
  }

  /** n is the number of free clusters in front of the first link 1. */
  ghost predicate CountToOne(f: seq<nat>, n: nat) {
    exists c :: FirstOne(f, c) && n == FreeBelow(f, c)
  }

  /** Stopping at cluster c counts right exactly when no free cluster lies behind it. */
  lemma {:induction false} PartialIsRight(f: seq<nat>, c: nat, n: nat)
    requires FirstOne(f, c) && c < n <= |f|
    ensures FreeBelow(f, c) <= FreeBelow(f, n)
    ensures FreeBelow(f, c) == FreeBelow(f, n) <==> forall b :: c < b < n ==> f[b] != 0
  {
    if n > c + 1 {
      PartialIsRight(f, c, n - 1);
    }
  }

  /** The FAT12 branch: get_fat on every cluster; a link of 1 stops it. */
  method CountByEntry(fs: FatFs) returns (n: nat, ok: bool)
    requires fs.Valid()
    modifies fs`disk, fs`winsect, fs`wflag, fs.win
    ensures fs.Valid() && fs.Logical() == old(fs.Logical())
    ensures ok <==> !HasOne(Links(fs))
    ensures if ok then n == FreeCount(Links(fs)) else CountToOne(Links(fs), n)
  {
    hide Fat, Sound;
    ghost var f := Links(fs);
    EndMarkFits(fs.geo, |fs.disk|);
    var clst := 2;
    n, ok := 0, true;
    while clst < fs.geo.nFatent
      invariant fs.Valid() && fs.Logical() == old(fs.Logical())
      invariant 2 <= clst <= fs.geo.nFatent && ok
      invariant forall c :: 2 <= c < clst ==> f[c] != 1
      invariant n == FreeBelow(f, clst)
    {
      var stat := GetLink(fs, clst);
      if stat == 1 {
        ok := false;
        assert FirstOne(f, clst);
        break;
      }
      if stat == 0 {
        n := n + 1;
      }
      clst := clst + 1;
    }
  }

  /** The value get_fat would return for entry c, read at offset p of a window over FAT sector k. */
  ghost predicate ShownAt(g: Geo, d: Disk, w: seq<Byte>, c: nat, p: nat)
    requires Sound(g, |d|) && c < g.nFatent && |w| == 512
  {
    match g.fsType
    case Fat12 => false
    case Fat16 => p + 2 <= 512 && Entry(g, d, c) == LdWord(w[p], w[p + 1])
    case Fat32 => p + 4 <= 512 && Entry(g, d, c) == LdDword(w[p], w[p + 1], w[p + 2], w[p + 3]) % 0x1000_0000
  }

  lemma ShownInSector(g: Geo, d: Disk, w: seq<Byte>, k: nat, c: nat, p: nat)
    requires Sound(g, |d|) && c < g.nFatent && |w| == 512 && g.fsType != Fat12
    requires k < g.fatSize && g.fatbase + g.fatSize <= |d| && w == d[g.fatbase + k]
    requires EntryByte(g.fsType, c) == 512 * k + p && p + EntryWidth(g.fsType) <= 512
    ensures ShownAt(g, d, w, c, p)
  {
    hide Sound, LdWord, LdDword;
    EntryInsideFat(g, |d|, c);
    Arith.DivUnique(512 * k + p, 512, k, p);
    Arith.DivUnique(512 * k + p + 1, 512, k, p + 1);
    if g.fsType == Fat32 {
      Arith.DivUnique(512 * k + p + 2, 512, k, p + 2);
      Arith.DivUnique(512 * k + p + 3, 512, k, p + 3);
    }
  }

  lemma LinkIsEntry(g: Geo, d: Disk, c: nat)
    requires Sound(g, |d|) && c < g.nFatent
    ensures Fat(g, d)[c] == Entry(g, d, c)
  {
  }

  lemma ZerosStep(f: seq<nat>, n: nat)
    requires n < |f|
    ensures ZerosBelow(f, 0) == 0
    ensures ZerosBelow(f, n + 1) == ZerosBelow(f, n) + if f[n] == 0 then 1 else 0
  {
  }

  /** The test on the entry at offset p of the window. */
  method ShowsZero(fs: FatFs, p: nat, ghost c: nat, ghost d: Disk) returns (zero: bool)
    requires fs.Valid() && fs.geo.fsType != Fat12 && c < fs.geo.nFatent && |d| == |fs.disk|
    requires ShownAt(fs.geo, d, fs.win[..], c, p)
    ensures zero == (Entry(fs.geo, d, c) == 0)
  {
    hide Entry, Sound, LdWord, LdDword;
    var w := fs.win[..];
    if fs.geo.fsType == Fat16 {
      zero := LdWord(w[p], w[p + 1]) == 0;
    } else {
      zero := LdDword(w[p], w[p + 1], w[p + 2], w[p + 3]) % 0x1000_0000 == 0;
    }
  }

  /**
   * The loop of f_getfree before entry done: i bytes of m entries are left in the window, which
   * shows the sector before sect; the next of them stands at p.
   */
  ghost predicate Counting(g: Geo, d: Disk, w: seq<Byte>, done: nat, sect: nat, p: nat, i: nat, m: nat) {
    && done <= g.nFatent && i <= 512 && g.fatbase <= sect
    && i == (if EntryWidth(g.fsType) == 2 then 2 * m else 4 * m)
    && EntryByte(g.fsType, done) + i == 512 * (sect - g.fatbase)
    && (i > 0 ==> p + i == 512 && g.fatbase < sect <= g.fatbase + g.fatSize <= |d| && w == d[sect - 1])
  }

  lemma CountingStart(g: Geo, d: Disk, w: seq<Byte>)
    requires g.fsType != Fat12
    ensures Counting(g, d, w, 0, g.fatbase, 0, 0, 0)
  {
  }

  lemma LinksSize(fs: FatFs)
    requires fs.Valid()
    ensures |Links(fs)| == fs.geo.nFatent > 0
    ensures Links(fs) == Fat(fs.geo, fs.Logical())
  {
  }

  /** With nothing left in the window the next sector is one of the FAT, and holds m' entries. */
  lemma CountingRefill(g: Geo, d: Disk, w: seq<Byte>, done: nat, sect: nat, p: nat, m: nat) returns (m': nat)
    requires Sound(g, |d|) && g.fsType != Fat12 && done < g.nFatent && Counting(g, d, w, done, sect, p, 0, m)
    ensures g.fatbase <= sect < g.fatbase + g.fatSize <= |d|
    ensures Counting(g, d, d[sect], done, sect + 1, 0, 512, m')
  {
    EntryInsideFat(g, |d|, done);
    hide Sound;
    m' := if EntryWidth(g.fsType) == 2 then 256 else 128;
  }

  /** The window shows entry done, and what is left without it. */
  lemma CountingStep(g: Geo, d: Disk, w: seq<Byte>, done: nat, sect: nat, p: nat, i: nat, m: nat)
    requires Sound(g, |d|) && g.fsType != Fat12 && done < g.nFatent && |w| == 512 && i > 0
    requires Counting(g, d, w, done, sect, p, i, m)
    ensures ShownAt(g, d, w, done, p) && EntryWidth(g.fsType) <= i && 0 < m
    ensures Counting(g, d, w, done + 1, sect, p + EntryWidth(g.fsType), i - EntryWidth(g.fsType), m - 1)
  {
    hide Sound;
    ShownInSector(g, d, w, sect - 1 - g.fatbase, done, p);
  }

  /** One round of that loop: whether entry done is zero, and where the next one stands. */
  method NextEntry(fs: FatFs, ghost done: nat, sect0: nat, p0: nat, i0: nat, ghost m0: nat)
    returns (zero: bool, sect: nat, p: nat, i: nat, ghost m: nat)
    requires fs.Valid() && fs.geo.fsType != Fat12 && done < fs.geo.nFatent
    requires Counting(fs.geo, fs.Logical(), fs.win[..], done, sect0, p0, i0, m0)
    modifies fs`disk, fs`winsect, fs`wflag, fs.win
    ensures fs.Valid() && fs.Logical() == old(fs.Logical())
    ensures Counting(fs.geo, fs.Logical(), fs.win[..], done + 1, sect, p, i, m)
    ensures zero == (Links(fs)[done] == 0)
  {
    hide *;
    ValidIsSound(fs);
    ghost var d := fs.Logical();
    sect, p, i, m := sect0, p0, i0, m0;
    if i == 0 {
      m := CountingRefill(fs.geo, d, fs.win[..], done, sect, p, m);
      ShowFatSector(fs, sect - fs.geo.fatbase);
      sect, p, i := sect + 1, 0, 512;
    }
    CountingStep(fs.geo, d, fs.win[..], done, sect, p, i, m);
    zero := ShowsZero(fs, p, done, d);
    LinkIsEntry(fs.geo, d, done);
    LinksSize(fs);
    p, i, m := p + EntryWidth(fs.geo.fsType), i - EntryWidth(fs.geo.fsType), m - 1;
  }

  /** The FAT16/FAT32 branch: all entries straight out of the window, sector by sector. */
  method CountBySector(fs: FatFs) returns (n: nat)
    requires fs.Valid() && fs.geo.fsType != Fat12
    modifies fs`disk, fs`winsect, fs`wflag, fs.win
    ensures fs.Valid() && fs.Logical() == old(fs.Logical())
    ensures n == ZerosBelow(Links(fs), fs.geo.nFatent)
  {
    hide *;
    ghost var f, d := Links(fs), fs.Logical();
    LinksSize(fs);
    ZerosStep(f, 0);
    var clst: nat, sect: nat, p: nat, i: nat := fs.geo.nFatent, fs.geo.fatbase, 0, 0;
    n := 0;
    ghost var m := 0;
    CountingStart(fs.geo, d, fs.win[..]);
    while clst != 0
      invariant fs.Valid() && fs.Logical() == d && clst <= fs.geo.nFatent
      invariant Counting(fs.geo, d, fs.win[..], fs.geo.nFatent - clst, sect, p, i, m)
      invariant n == ZerosBelow(f, fs.geo.nFatent - clst)
    {
      ghost var done := fs.geo.nFatent - clst;
      var zero: bool;
      zero, sect, p, i, m := NextEntry(fs, done, sect, p, i, m);
      LinksSize(fs);
      ZerosStep(f, done);
      if zero {
        n := n + 1;
      }
      clst := clst - 1;
    }
    LinksSize(fs);
  }

  /**
   * f_getfree on a mounted volume. A plausible count is returned as it stands. Otherwise the result
   * of a scan is returned and stored: on FAT12 the number of free clusters, up to the first link 1
   * when there is one, which is an error; on FAT16 and FAT32 the number of free clusters and of the
   * reserved entries that are zero.
   */
  method GetFree(fs: FatFs) returns (n: nat, ok: bool)
    requires fs.Valid()
    modifies fs`disk, fs`winsect, fs`wflag, fs`freeClust, fs`fsiFlag, fs.win
    ensures fs.Valid() && fs.Logical() == old(fs.Logical()) && n == fs.freeClust
    ensures old(fs.freeClust) <= fs.geo.nFatent - 2 ==> ok && n == old(fs.freeClust) && fs.fsiFlag == old(fs.fsiFlag)
    ensures var f := Links(fs);
      old(fs.freeClust) > fs.geo.nFatent - 2 ==>
        && (ok <==> fs.geo.fsType != Fat12 || !HasOne(f))
        && (if !ok then CountToOne(f, n)
            else n == FreeCount(f) + if fs.geo.fsType == Fat12 then 0 else ZerosBelow(f, 2))
        && (BooksOf(fs).right <==> n == FreeCount(f))
        && fs.fsiFlag == (old(fs.fsiFlag) || fs.geo.fsType == Fat32)
  {
    hide Fat, Sound, CountToOne;
    EndMarkFits(fs.geo, |fs.disk|);
    ghost var f := Links(fs);
    ok := true;
    if fs.freeClust <= fs.geo.nFatent - 2 {
      n := fs.freeClust;
    } else {
      if fs.geo.fsType == Fat12 {
        n, ok := CountByEntry(fs);
      } else {
        n := CountBySector(fs);
        ZerosAreFree(f, |f|);
        AtMostTwo(f);
      }
      FreeCountBound(f);
      if !ok {
        CountToOneBound(f, n);
      }
      fs.freeClust := W32(n);
      if fs.geo.fsType == Fat32 {
        fs.fsiFlag := true;
      }
    }
    assert Links(fs) == f;
  }

  lemma AtMostTwo(f: seq<nat>)
    requires 2 <= |f|
    ensures ZerosBelow(f, 2) == (if f[0] == 0 then 1 else 0) + (if f[1] == 0 then 1 else 0)
  {
    assert ZerosBelow(f, 1) == ZerosBelow(f, 0) + if f[0] == 0 then 1 else 0;
  }

  /** When f_getfree stops at the first link 1, its count is right exactly when no free cluster lies behind. */
  lemma CountToOneBound(f: seq<nat>, n: nat)
    requires CountToOne(f, n)
    ensures n <= FreeCount(f)
    ensures exists c: nat :: FirstOne(f, c) && (n == FreeCount(f) <==> forall b :: c < b < |f| ==> f[b] != 0)
  {
    var c: nat :| FirstOne(f, c) && n == FreeBelow(f, c);
    PartialIsRight(f, c, |f|);
  }

  // ---------------------------------------------------------------- FSInfo

  /** FSInfo in the reserved sectors tells the free count and, if that is known, the hint, or is marked for writing. */
  ghost predicate InStep(g: Geo, d: Disk, fsi: nat, b: Books) {
    && fsi < g.fatbase && fsi < |d|
    && (!b.flag ==>
      var (free, last) := Counters(Fat32, d, fsi); free == b.free && (free != 0xFFFFFFFF ==> last == b.last))
  }

  /** Whatever changes nothing in front of the FATs and lets the books follow keeps FSInfo in step. */
  lemma StaysInStep(g: Geo, d: Disk, e: Disk, fsi: nat, a: Books, b: Books)
    requires InStep(g, d, fsi, a) && Follows(a, b) && |e| == |d| && e[fsi] == d[fsi]
    ensures InStep(g, e, fsi, b)
  {
  }

  lemma OnlyFatKeepsFsInfo(g: Geo, d: Disk, e: Disk, fsi: nat)
    requires OnlyFatChanged(g, d, e) && fsi < g.fatbase && fsi < |d|
    ensures e[fsi] == d[fsi]
  {
  }

  /** A freshly mounted volume is in step. */
  lemma MountedInStep(g: Geo, d: Disk, fsi: nat, right: bool)
    requires fsi < g.fatbase && fsi < |d|
    ensures var (free, last) := Counters(Fat32, d, fsi); InStep(g, d, fsi, Books(free, last, false, right))
  {
  }

  /**
   * The device after sync, for a volume in step: the next mount starts with the free count in memory,
   * and with the hint in memory unless the count is unknown and FSInfo was not written.
   */
  lemma SyncTellsTheBooks(g: Geo, d: Disk, fsi: nat, b: Books)
    requires InStep(g, d, fsi, b)
    ensures var e := if b.flag then d[fsi := FsInfo(b.free, b.last)] else d;
      var (free, last) := Counters(Fat32, e, fsi);
      free == b.free && (b.flag || b.free != 0xFFFFFFFF ==> last == b.last)
  {
    FsInfoRoundTrip(b.free, b.last);
    hide FsInfo, IsFsInfo, LdDword;
  }

  /** Allocating or freeing, then sync: the next mount starts with the count in memory, one less or more. */
  lemma AllocationReachesFsInfo(g: Geo, d: Disk, e: Disk, fsi: nat, a: Books, b: Books)
    requires InStep(g, d, fsi, a) && Follows(a, b) && OnlyFatChanged(g, d, e)
    ensures var k := if b.flag then e[fsi := FsInfo(b.free, b.last)] else e;
      var (free, last) := Counters(Fat32, k, fsi);
      free == b.free && (b.flag || b.free != 0xFFFFFFFF ==> last == b.last)
  {
    OnlyFatKeepsFsInfo(g, d, e, fsi);
    StaysInStep(g, d, e, fsi, a, b);
    SyncTellsTheBooks(g, e, fsi, b);
  }
}

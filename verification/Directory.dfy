/** dir_sdi, dir_next, dir_find, dir_register and dir_remove. */
module Directory {
  import opened Bytes
  import opened Geometry
  import opened Window
  import opened FatAccess
  import opened Chains
  import opened Allocator
  import opened FileData
  import opened DirMap
  import opened DirData
  import Arith
  import FileIo

  datatype Status = Ok | NoFile | Denied | IntErr

  /** One round of the filling loop: the window, renamed to a data sector, is written out and moved on. */
  method WriteOut(fs: FatFs)
    requires fs.win.Length == 512 && Sound(fs.geo, |fs.disk|) && fs.geo.database <= fs.winsect < |fs.disk|
    modifies fs`disk, fs`winsect, fs`wflag
    modifies fs.win
    ensures fs.disk == old(fs.disk)[old(fs.winsect) := old(fs.win[..])]
    ensures fs.win[..] == old(fs.win[..]) && fs.winsect == old(fs.winsect) + 1 && !fs.wflag
  {
    fs.wflag := true;
    DataIsDirtyable(fs.geo, |fs.disk|, fs.winsect);
    hide Sound, Mirrored;
    SoundCsize(fs.geo, |fs.disk|);
    fs.MoveWindow(0);
    fs.winsect := fs.winsect + 1;
  }

  lemma ZeroedRun(base: Disk, d: Disk, first: nat, cc: nat)
    requires first + cc <= |base| == |d|
    requires forall t :: 0 <= t < |base| ==> d[t] == if first <= t < first + cc then ZeroSector() else base[t]
    ensures d == PutRun(base, first, ZeroRun(cc))
  {
    Arith.DivUnique(|ZeroRun(cc)|, 512, cc, 0);
    var e := PutRun(base, first, ZeroRun(cc));
    forall t | 0 <= t < |base|
      ensures d[t] == e[t]
    {
      if first <= t < first + cc {
        assert e[t] == ZeroRun(cc)[(t - first) * 512..(t - first) * 512 + 512];
        assert e[t] == ZeroSector();
      }
    }
  }

  /** The filling loop: csize zero sectors from the renamed window on. */
  method FillSectors(fs: FatFs, ghost base: Disk) returns (c: nat)
    requires fs.win.Length == 512 && Sound(fs.geo, |fs.disk|) && fs.win[..] == ZeroSector() && !fs.wflag
    requires fs.disk == base
    requires fs.geo.database <= fs.winsect && fs.winsect + fs.geo.csize <= |fs.disk|
    modifies fs`disk, fs`winsect, fs`wflag, fs.win
    ensures c == fs.geo.csize && fs.winsect == old(fs.winsect) + c && !fs.wflag
    ensures fs.win[..] == ZeroSector() && |fs.disk| == |base|
    ensures fs.disk == PutRun(base, old(fs.winsect), ZeroRun(fs.geo.csize))
  {
    hide Sound, PutRun;
    ghost var first := fs.winsect;
    c := 0;
    while c < fs.geo.csize
      invariant c <= fs.geo.csize && fs.winsect == first + c && !fs.wflag
      invariant |fs.disk| == |base| && fs.win[..] == ZeroSector()
      invariant forall t :: 0 <= t < |base| ==>
        fs.disk[t] == if first <= t < first + c then ZeroSector() else base[t]
    {
      WriteOut(fs);
      c := c + 1;
    }
    ZeroedRun(base, fs.disk, first, c);
  }

  /** Filling the cluster clst with zeros through the window, as dir_next does with a new one. */
  method ZeroCluster(fs: FatFs, clst: nat)
    requires fs.Valid() && 2 <= clst < fs.geo.nFatent
    requires fs.geo.database <= Clust2Sect(fs.geo, clst) && Clust2Sect(fs.geo, clst) + fs.geo.csize <= |fs.disk|
    modifies fs`disk, fs`winsect, fs`wflag, fs.win
    ensures fs.Valid() && |fs.disk| == old(|fs.disk|)
    ensures fs.Logical() == PutRun(old(fs.Logical()), Clust2Sect(fs.geo, clst), ZeroRun(fs.geo.csize))
  {
    SoundCsize(fs.geo, |fs.disk|);
    hide Sound, Clust2Sect, ZeroRun;
    fs.MoveWindow(0);
    ghost var base := fs.disk;
    MemSet(fs.win, 0, 0, 512);
    assert fs.win[..] == ZeroSector();
    fs.winsect := Clust2Sect(fs.geo, clst);
    var c := FillSectors(fs, base);
    fs.winsect := fs.winsect - c;
    FirstIsZero(base, fs.winsect, c);
  }

  lemma FirstIsZero(base: Disk, first: nat, cc: nat)
    requires 0 < cc && first + cc <= |base|
    ensures |ZeroRun(cc)| / 512 == cc && |ZeroRun(cc)| % 512 == 0
    ensures PutRun(base, first, ZeroRun(cc))[first] == ZeroSector()
  {
    Arith.DivUnique(|ZeroRun(cc)|, 512, cc, 0);
  }

  /** DIR. */
  class Dir {
    const fs: FatFs
    var sclust: nat    // start cluster, 0: root directory
    var index: nat     // current index, a WORD
    var clust: nat     // current cluster, 0 in the static table
    var sect: nat      // current sector
    var dir: nat       // offset of the current slot in the window
    var fn: Name       // name in directory form

    ghost var table: Table

    /** The start cluster after the substitution dir_sdi makes for the FAT32 root directory. */
    function Start(): nat
      reads this
    {
      if sclust == 0 && fs.geo.fsType == Fat32 then fs.geo.dirbase else sclust
    }

    /** The directory is a table of the volume, reached from its start cluster. */
    ghost predicate Valid()
      reads this, fs, fs.win
    {
      && fs.Valid()
      && TableOk(fs.geo, Links(fs), table)
      && StartsAt(table, Start())
    }

    ghost function Table(): seq<Slot>
      requires fs.Valid()
      reads this, fs, fs.win
    {
      Slots(fs.geo, fs.Logical(), table)
    }

    ghost predicate At(i: nat)
      reads this
    {
      PointsAt(fs.geo, table, i, index, clust, sect, dir)
    }

    constructor (fs: FatFs, sclust: nat, fn: Name, ghost table: Table)
      requires fs.Valid() && TableOk(fs.geo, Links(fs), table)
      requires StartsAt(table, if sclust == 0 && fs.geo.fsType == Fat32 then fs.geo.dirbase else sclust)
      ensures this.fs == fs && this.table == table && this.fn == fn && Valid()
    {
      this.fs, this.sclust, this.fn, this.table := fs, sclust, fn, table;
      index, clust, sect, dir := 0, 0, 0, 0;
    }

    /** A start cluster no directory can have. */
    predicate BadStart()
      reads this
    {
      sclust == 1 || sclust >= fs.geo.nFatent
    }

    /** The start cluster of a directory is never one of those: 0 is the root directory. */
    lemma GoodStart()
      requires Valid()
      ensures !BadStart()
    {
      ValidIsSound(fs);
      hide Sound, Fat;
      if table.Clusters? {
        ChainRange(Links(fs), table.chain);
      }
    }

    /**
     * dir_sdi: refuses a start cluster that cannot be one, and otherwise succeeds exactly when the
     * index is inside the table, and then points at its slot.
     */
    method Sdi(idx: Word) returns (ok: bool)
      requires fs.Valid() && (BadStart() || Valid())
      modifies this`index, this`clust, this`sect, this`dir, fs`disk, fs`winsect, fs`wflag, fs.win
      ensures fs.Valid() && fs.Logical() == old(fs.Logical())
      ensures if old(Valid()) then Valid() && (ok <==> HasSlot(fs.geo, table, idx)) else !ok
      ensures ok ==> At(idx)
      ensures index == idx
    {
      hide Sound, IsChain, InRange, Fat;
      ValidIsSound(fs);
      SoundCsize(fs.geo, |fs.disk|);
      if Valid() {
        GoodStart();
      }
      index := idx;
      var clst := sclust;
      if clst == 1 || clst >= fs.geo.nFatent {
        return false;
      }
      if clst == 0 && fs.geo.fsType == Fat32 {
        clst := fs.geo.dirbase;
      }
      if clst == 0 {
        StaticStart(fs.geo, Links(fs), table, clst);
        clust := clst;
        if idx >= fs.geo.nRootdir {
          return false;
        }
        sect := fs.geo.dirbase + idx / 16;
      } else {
        ok, clst := Follow(clst, idx);
        if !ok {
          return;
        }
        clust := clst;
        SlotInCluster(fs.geo, table.chain, idx);
        sect := Clust2Sect(fs.geo, clst) + idx % (fs.geo.csize * 16) / 16;
      }
      dir := idx % 16 * 32;
      ok := true;
    }

    /** The cluster-following loop of dir_sdi. */
    method Follow(start: nat, idx: Word) returns (ok: bool, clst: nat)
      requires Valid() && table.Clusters? && StartsAt(table, start)
      modifies fs`disk, fs`winsect, fs`wflag, fs.win
      ensures Valid() && fs.Logical() == old(fs.Logical())
      ensures ok <==> HasSlot(fs.geo, table, idx)
      ensures ok ==> InClusterOf(fs.geo, table, idx, clst)
    {
      hide Sound, IsChain, InRange, Fat;
      ValidIsSound(fs);
      SoundCsize(fs.geo, |fs.disk|);
      var ic := 16 * fs.geo.csize;
      ChainRange(Links(fs), table.chain);
      var rest: nat := idx;
      ghost var p: nat := 0;
      clst := start;
      ok := true;
      while rest >= ic
        invariant Valid() && fs.Logical() == old(fs.Logical()) && ok
        invariant p < |table.chain| && clst == table.chain[p]
        invariant idx == p * ic + rest
      {
        ChainLink(Links(fs), table.chain, p);
        if p + 1 < |table.chain| {
          ChainLink(Links(fs), table.chain, p + 1);
        }
        assert (p + 1) * ic == p * ic + ic;
        clst := GetLink(fs, clst);
        if clst < 2 || clst >= fs.geo.nFatent {
          ok := false;
          PastTheEnd(fs.geo, p + 1, rest - ic, idx);
          return;
        }
        rest := rest - ic;
        p := p + 1;
      }
      PastTheEnd(fs.geo, p, rest, idx);
      Arith.DivUnique(idx, ic, p, rest);
      DivSlots(idx, fs.geo.csize);
    }

    /** create_chain on the last cluster of the table, and zeros for the cluster it returns. */
    method StretchTable(from: nat) returns (clst: nat)
      requires Valid() && table.Clusters? && table.chain != [] && from == table.chain[|table.chain| - 1]
      modifies this`table
      modifies fs`disk, fs`winsect, fs`wflag, fs`lastClust, fs`freeClust, fs`fsiFlag, fs.win
      ensures Valid()
      ensures clst < 2 ==> table == old(table) && fs.Logical() == old(fs.Logical())
      ensures clst == 0 ==> FreeCount(Links(fs)) == 0 && !HasOne(Links(fs))
      ensures clst == 1 ==> HasOne(Links(fs))
      ensures clst >= 2 ==> table == Clusters(old(table.chain) + [clst])
      ensures clst >= 2 ==> Stretched(fs.geo, old(fs.Logical()), fs.Logical(), old(table.chain), clst)
      ensures clst >= 2 ==> Grew(old(Links(fs)), Links(fs), old(table.chain), table.chain)
      ensures Follows(old(BooksOf(fs)), BooksOf(fs))
    {
      hide Sound, IsChain, InRange, Fat, FreeCount, HasOne, Grown, ScanFinds, OnlyFatChanged, Stretched, Grew, PutRun, Clust2Sect;
      ValidIsSound(fs);
      SoundCsize(fs.geo, |fs.disk|);
      EndMarkFits(fs.geo, |fs.disk|);
      ghost var f, d, s := Links(fs), fs.Logical(), table.chain;
      ChainLink(f, s, |s| - 1);
      hide FatFs.Valid, FatFs.Logical;
      clst := CreateChain(fs, from);
      FileIo.ScanOutcome(f, ScanStart(fs.geo.nFatent, from, old(fs.lastClust)), clst);
      if clst < 2 {
        return;
      }
      GrowLast(f, s, clst, EndMark(fs.geo.fsType));
      NewInRange(fs.geo, f, s, clst);
      FileIo.GrewIsChain(f, Links(fs), s, s + [clst]);
      ZeroedIsStretched(fs.geo, d, fs.Logical(), s, clst);
      ZeroCluster(fs, clst);
      table := Clusters(s + [clst]);
    }

    /** dir_next at the end of a cluster: 0 and 1 as from create_chain, 2 when there is none and no stretch. */
    method NextDirCluster(stretch: bool, ghost p: nat) returns (clst: nat, st: Status)
      requires Valid() && table.Clusters? && p < |table.chain| && clust == table.chain[p]
      modifies this`table
      modifies fs`disk, fs`winsect, fs`wflag, fs`lastClust, fs`freeClust, fs`fsiFlag, fs.win
      ensures Valid() && table.Clusters?
      ensures st == Ok ==> p + 1 < |table.chain| && clst == table.chain[p + 1]
      ensures st != Ok || p + 1 < |old(table.chain)| ==> table == old(table) && fs.Logical() == old(fs.Logical())
      ensures st != Ok ==> p + 1 == |table.chain|
      ensures st == NoFile <==> !stretch && p + 1 == |old(table.chain)|
      ensures st == Denied ==> FreeCount(Links(fs)) == 0 && !HasOne(Links(fs))
      ensures st == IntErr ==> stretch && HasOne(Links(fs))
      ensures st == Ok && p + 1 == |old(table.chain)| ==>
        && table == Clusters(old(table.chain) + [clst])
        && Stretched(fs.geo, old(fs.Logical()), fs.Logical(), old(table.chain), clst)
        && Grew(old(Links(fs)), Links(fs), old(table.chain), table.chain)
      ensures Follows(old(BooksOf(fs)), BooksOf(fs))
    {
      hide Sound, IsChain, InRange, Fat, FreeCount, HasOne, Stretched, Grew;
      ValidIsSound(fs);
      ChainLink(Links(fs), table.chain, p);
      if p + 1 < |table.chain| {
        ChainLink(Links(fs), table.chain, p + 1);
      }
      clst := GetLink(fs, clust);
      st := Ok;
      if clst <= 1 {
        st := IntErr;
      } else if clst >= fs.geo.nFatent {
        if !stretch {
          return 0, NoFile;
        }
        clst := StretchTable(clust);
        st := if clst == 0 then Denied else if clst == 1 then IntErr else Ok;
      }
    }

    /**
     * dir_next. Success from index i leaves the object where dir_sdi(i + 1) would put it; the table
     * grows, by one zeroed cluster, only when there is no such slot and the caller allows it.
     */
    method Next(stretch: bool) returns (st: Status)
      requires Valid() && At(index)
      modifies this`index, this`clust, this`sect, this`dir, this`table
      modifies fs`disk, fs`winsect, fs`wflag, fs`lastClust, fs`freeClust, fs`fsiFlag, fs.win
      ensures Valid()
      ensures st == Ok ==> At(old(index) + 1)
      ensures index == if st == Ok then old(index) + 1 else old(index)
      ensures st != Ok || HasSlot(fs.geo, old(table), old(index) + 1) ==>
        table == old(table) && fs.Logical() == old(fs.Logical())
      ensures st != Ok ==> old(index) + 1 == 0x1_0000 || !HasSlot(fs.geo, table, old(index) + 1)
      ensures st == NoFile <==>
        (old(index) + 1 == 0x1_0000 ||
         (!HasSlot(fs.geo, old(table), old(index) + 1) && (!stretch || old(table).StaticRoot?)))
      ensures st == Denied ==> FreeCount(Links(fs)) == 0 && !HasOne(Links(fs))
      ensures st == IntErr ==> stretch && HasOne(Links(fs))
      ensures st == Ok && !HasSlot(fs.geo, old(table), old(index) + 1) ==>
        && GrewBy(old(table), table)
        && Stretched(fs.geo, old(fs.Logical()), fs.Logical(), old(table).chain, NewCluster(table))
        && Grew(old(Links(fs)), Links(fs), old(table).chain, table.chain)
      ensures Follows(old(BooksOf(fs)), BooksOf(fs))
    {
      hide Sound, IsChain, InRange, Fat, FreeCount, HasOne, Stretched, Grew, HasSlot, SlotSector;
      ValidIsSound(fs);
      SoundCsize(fs.geo, |fs.disk|);
      SlotSectorInside(fs.geo, |fs.disk|, Links(fs), table, index);
      ClusterZero(fs.geo, Links(fs), table, index, clust);
      hide FatFs.Valid, FatFs.Logical, TableOk;
      st := Ok;
      var i := index + 1;
      if i == 0x1_0000 || sect == 0 {  // a WORD index wraps to 0
        return NoFile;
      }
      if i % 16 == 0 {
        sect := sect + 1;
        if clust == 0 {
          if i >= fs.geo.nRootdir {
            return NoFile;
          }
          NextSector(fs.geo, |fs.disk|, table, index, clust);
        } else if i / 16 % fs.geo.csize == 0 {
          st := Cross(stretch, i);
          if st != Ok {
            return;
          }
        } else {
          NextSector(fs.geo, |fs.disk|, table, index, clust);
        }
      } else {
        NextInSector(fs.geo, |fs.disk|, table, index, clust);
      }
      index := i;
      dir := i % 16 * 32;
    }

    /** The step of dir_next into the next cluster. */
    method Cross(stretch: bool, i: nat) returns (st: Status)
      requires Valid() && table.Clusters? && InClusterOf(fs.geo, table, index, clust)
      requires i == index + 1 && i % 16 == 0 && i / 16 % fs.geo.csize == 0
      modifies this`clust, this`sect, this`table
      modifies fs`disk, fs`winsect, fs`wflag, fs`lastClust, fs`freeClust, fs`fsiFlag, fs.win
      ensures Valid() && table.Clusters?
      ensures st == Ok ==> InClusterOf(fs.geo, table, i, clust) && sect == SlotSector(fs.geo, table, i)
      ensures st != Ok || HasSlot(fs.geo, old(table), i) ==> table == old(table) && fs.Logical() == old(fs.Logical())
      ensures st != Ok ==> !HasSlot(fs.geo, table, i)
      ensures st == NoFile <==> !HasSlot(fs.geo, old(table), i) && !stretch
      ensures st == Denied ==> FreeCount(Links(fs)) == 0 && !HasOne(Links(fs))
      ensures st == IntErr ==> stretch && HasOne(Links(fs))
      ensures st == Ok && !HasSlot(fs.geo, old(table), i) ==>
        && GrewBy(old(table), table)
        && Stretched(fs.geo, old(fs.Logical()), fs.Logical(), old(table).chain, NewCluster(table))
        && Grew(old(Links(fs)), Links(fs), old(table).chain, table.chain)
      ensures Follows(old(BooksOf(fs)), BooksOf(fs))
    {
      hide Sound, IsChain, InRange, Fat, FreeCount, HasOne, Stretched, Grew, SlotSector, FatFs.Valid, FatFs.Logical, Clust2Sect;
      ghost var s, p := table.chain, index / 16 / fs.geo.csize;
      NextClusterSlot(fs.geo, s, index);
      var clst;
      clst, st := NextDirCluster(stretch, p);
      if st == Ok {
        ArriveInCluster(fs.geo, s, table.chain, index, clst);
        clust := clst;
        sect := Clust2Sect(fs.geo, clst);
      }
    }

    /** move_window to the current sector: the window shows the current slot. */
    method Show()
      requires Valid() && At(index)
      modifies fs`disk, fs`winsect, fs`wflag, fs.win
      ensures Valid() && fs.Logical() == old(fs.Logical())
      ensures fs.winsect == sect && dir + 32 <= 512 && fs.win[..] == fs.Logical()[sect]
      ensures index < |Table()| && fs.win[dir..dir + 32] == Table()[index]
    {
      hide Sound, TableOk, SlotSector;
      ValidIsSound(fs);
      SlotSectorInside(fs.geo, |fs.disk|, Links(fs), table, index);
      fs.MoveWindow(sect);
      SlotsAre(fs.geo, fs.Logical(), table, |fs.disk|, index);
      assert fs.win[dir..dir + 32] == SlotIn(fs.win[..], index);
    }

    /** What dir_find and dir_register read of the current slot. */
    method Look() returns (c: Byte, hit: bool)
      requires Valid() && At(index)
      modifies fs`disk, fs`winsect, fs`wflag, fs.win
      ensures Valid() && fs.Logical() == old(fs.Logical())
      ensures index < |Table()| && c == Table()[index][0]
      ensures hit <==> Matches(Table()[index], fn)
    {
      hide Sound, TableOk, Slots, PointsAt;
      Show();
      ValidIsSound(fs);
      hide FatFs.Valid, FatFs.Logical;
      ghost var e: Slot := fs.win[dir..dir + 32];
      c := fs.win[dir];
      hit := fs.win[dir + 11] / 8 % 2 == 0 && fs.win[dir..dir + 11] == fn;
      assert e[11] == fs.win[dir + 11] && e[..11] == fs.win[dir..dir + 11] && e[0] == fs.win[dir];
    }

    /** dir_next without stretching: the next slot, or the end of the table. */
    method Advance() returns (st: Status)
      requires Valid() && At(index) && index < |Table()|
      modifies this`index, this`clust, this`sect, this`dir, this`table
      modifies fs`disk, fs`winsect, fs`wflag, fs`lastClust, fs`freeClust, fs`fsiFlag, fs.win
      ensures Valid() && fs.Logical() == old(fs.Logical()) && table == old(table)
      ensures (st == Ok && At(index)) || st == NoFile
      ensures index == if st == Ok then old(index) + 1 else old(index)
      ensures st == NoFile ==> index + 1 == |Table()|
      ensures Follows(old(BooksOf(fs)), BooksOf(fs))
    {
      hide Sound, TableOk, Slots, PointsAt, HasSlot, Stretched, Grew, FreeCount, Fat;
      ValidIsSound(fs);
      ghost var d := fs.Logical();
      PointsInside(fs.geo, table, index, clust, sect, dir);
      hide FatFs.Valid, FatFs.Logical;
      st := Next(false);
      if st == Ok {
        PointsInside(fs.geo, table, old(index) + 1, clust, sect, dir);
      } else {
        EndOfSlots(fs.geo, d, table, |d|, index + 1);
      }
    }

    /** The loop of dir_find from slot 0 on. */
    method SearchName() returns (st: Status)
      requires Valid() && At(0) && index == 0 && HasSlot(fs.geo, table, 0)
      modifies this`index, this`clust, this`sect, this`dir, this`table
      modifies fs`disk, fs`winsect, fs`wflag, fs`lastClust, fs`freeClust, fs`fsiFlag, fs.win
      ensures Valid() && fs.Logical() == old(fs.Logical()) && table == old(table)
      ensures st == Ok || st == NoFile
      ensures st == Ok ==> At(index) && FoundAt(Table(), fn, index)
      ensures st == NoFile ==> NotFound(Table(), fn)
      ensures Follows(old(BooksOf(fs)), BooksOf(fs))
    {
      hide Sound, TableOk, FoundAt, Passed, Slots, PointsAt, Matches, HasSlot, FreeCount, Fat;
      ValidIsSound(fs);
      ghost var d, t := fs.Logical(), Table();
      hide FatFs.Valid, FatFs.Logical, BooksOf;
      PassNone(t, fn);
      st := Ok;
      while true
        invariant Valid() && fs.Logical() == d && table == old(table) && st == Ok
        invariant At(index) && Passed(t, fn, index)
        invariant Follows(old(BooksOf(fs)), BooksOf(fs))
        decreases 0x1_0000 - index
      {
        PointsInside(fs.geo, table, index, clust, sect, dir);
        var c, hit := Look();
        PassOne(t, fn, index);
        if c == 0 {
          return NoFile;
        }
        if hit {
          return Ok;
        }
        st := Advance();
        if st != Ok {
          PassAll(t, fn);
          return;
        }
      }
    }

    /** dir_find: on a well-formed directory, lookup of the name. */
    method Find() returns (st: Status)
      requires fs.Valid() && (BadStart() || Valid())
      modifies this`index, this`clust, this`sect, this`dir, this`table
      modifies fs`disk, fs`winsect, fs`wflag, fs`lastClust, fs`freeClust, fs`fsiFlag, fs.win
      ensures fs.Valid() && fs.Logical() == old(fs.Logical()) && table == old(table)
      ensures if old(Valid()) then Valid() && (st == Ok || st == NoFile) else st == IntErr
      ensures st == Ok ==> At(index) && FoundAt(Table(), fn, index)
      ensures st == NoFile ==> NotFound(Table(), fn)
      ensures old(Valid()) && WellFormed(Table()) && Proper(fn) ==>
        (st == Ok <==> fn in Entries(Table())) &&
        (st == Ok ==> Entries(Table())[fn] == Table()[index])
      ensures Follows(old(BooksOf(fs)), BooksOf(fs))
    {
      hide Sound, TableOk, WellFormed, Entries, FoundAt, Slots, PointsAt, HasSlot, FreeCount, Fat;
      ValidIsSound(fs);
      if Valid() {
        FirstSlot(fs.geo, |fs.disk|, Links(fs), table);
      }
      ghost var t := Table();
      hide FatFs.Valid, FatFs.Logical;
      var ok := Sdi(0);
      if !ok {
        return IntErr;
      }
      st := SearchName();
      if WellFormed(t) && Proper(fn) {
        FindIsLookup(t, fn);
      }
    }

    /** dir_next with stretching: the next slot, in a table that may have grown by zeroed slots z. */
    method AdvanceOrStretch() returns (st: Status, ghost z: seq<Slot>)
      requires Valid() && At(index) && index < |Table()|
      modifies this`index, this`clust, this`sect, this`dir, this`table
      modifies fs`disk, fs`winsect, fs`wflag, fs`lastClust, fs`freeClust, fs`fsiFlag, fs.win
      ensures Valid() && index == if st == Ok then old(index) + 1 else old(index)
      ensures st == Ok ==> At(index) && index < |Table()|
      ensures Table() == old(Table()) + z && ZeroMarked(z)
      ensures OnlyTableChanged(fs.geo, old(fs.Logical()), fs.Logical(), table)
      ensures st != Ok || index < |old(Table())| ==> z == [] && table == old(table) && fs.Logical() == old(fs.Logical())
      ensures st != Ok ==> index + 1 == |Table()|
      ensures st == Denied ==> FreeCount(Links(fs)) == 0 && !HasOne(Links(fs))
      ensures st == IntErr ==> HasOne(Links(fs))
      ensures st == NoFile ==> table.StaticRoot? || |Table()| == 0x1_0000
      ensures table == old(table) || (GrewBy(old(table), table) &&
        Grew(old(Links(fs)), Links(fs), old(table).chain, table.chain))
      ensures Follows(old(BooksOf(fs)), BooksOf(fs))
    {
      hide Sound, TableOk, Slots, PointsAt, HasSlot, Stretched, Grew, FreeCount, HasOne, Fat, OnlyTableChanged, InRange, IsChain;
      ValidIsSound(fs);
      ghost var d, t, g, i := fs.Logical(), table, fs.geo, index + 1;
      PointsInside(g, table, index, clust, sect, dir);
      OnlyTableRefl(g, d, t);
      TableInRange(g, Links(fs), t);
      hide FatFs.Valid, FatFs.Logical;
      st := Next(true);
      z := [];
      if st == Ok {
        PointsInside(g, table, i, clust, sect, dir);
        ValidIsSound(fs);
        SlotsAre(g, fs.Logical(), table, |fs.Logical()|, i);
        if !HasSlot(g, t, i) {
          EndOfSlots(g, d, t, |d|, i);
          z := StretchedTable(g, d, fs.Logical(), t.chain, NewCluster(table));
        } else {
          assert Slots(g, d, t) + [] == Slots(g, d, t);
        }
      } else {
        EndOfSlots(g, d, t, |d|, i);
        assert Slots(g, d, t) + [] == Slots(g, d, t);
      }
    }

    /** The loop of dir_register from slot 0 on. */
    method SearchBlank() returns (st: Status, ghost z: seq<Slot>)
      requires Valid() && At(0) && index == 0
      modifies this`index, this`clust, this`sect, this`dir, this`table
      modifies fs`disk, fs`winsect, fs`wflag, fs`lastClust, fs`freeClust, fs`fsiFlag, fs.win
      ensures Valid()
      ensures st == Ok ==> At(index) && FirstBlank(Table(), index) && Table() == old(Table()) + z && ZeroMarked(z)
      ensures OnlyTableChanged(fs.geo, old(fs.Logical()), fs.Logical(), table)
      ensures st != Ok ==> table == old(table) && fs.Logical() == old(fs.Logical()) && InUse(Table(), |Table()|)
      ensures st == Denied ==> FreeCount(Links(fs)) == 0 && !HasOne(Links(fs))
      ensures st == IntErr ==> HasOne(Links(fs))
      ensures st == NoFile ==> table.StaticRoot? || |Table()| == 0x1_0000
      ensures table == old(table) || (GrewBy(old(table), table) &&
        Grew(old(Links(fs)), Links(fs), old(table).chain, table.chain))
      ensures Follows(old(BooksOf(fs)), BooksOf(fs))
      ensures table != old(table) ==> InUse(old(Table()), |old(Table())|)
    {
      hide Sound, TableOk, Slots, PointsAt, HasSlot, Grew, FreeCount, HasOne, Fat, OnlyTableChanged, InUse, FirstBlank, Blank;
      ValidIsSound(fs);
      ghost var d, t0 := fs.Logical(), Table();
      OnlyTableRefl(fs.geo, d, table);
      hide FatFs.Valid, FatFs.Logical, BooksOf;
      z := [];
      NoneUsed(t0);
      assert t0 + [] == t0;
      st := Ok;
      while true
        invariant Valid() && st == Ok && At(index) && InUse(Table(), index)
        invariant Table() == t0 + z && ZeroMarked(z)
        invariant z == [] ==> table == old(table) && fs.Logical() == d
        invariant z != [] ==> index == |t0| && InUse(t0, |t0|)
        invariant OnlyTableChanged(fs.geo, d, fs.Logical(), table)
        invariant Follows(old(BooksOf(fs)), BooksOf(fs))
        invariant table == old(table) || (GrewBy(old(table), table) &&
          Grew(old(Links(fs)), Links(fs), old(table).chain, table.chain))
        decreases 0x1_0000 - index
      {
        PointsInside(fs.geo, table, index, clust, sect, dir);
        var c, hit := Look();
        UseOne(Table(), index);
        BlankIs(Table()[index]);
        if c == 0xE5 || c == 0 {
          return;
        }
        assert z == [];
        st, z := AdvanceOrStretch();
        if st != Ok {
          return;
        }
        UseExtended(t0, z, index);
      }
    }

    /** The search of dir_register: the first blank slot, in a table that may have grown by zeroed slots z. */
    method FindBlank() returns (st: Status, ghost z: seq<Slot>)
      requires fs.Valid() && (BadStart() || Valid())
      modifies this`index, this`clust, this`sect, this`dir, this`table
      modifies fs`disk, fs`winsect, fs`wflag, fs`lastClust, fs`freeClust, fs`fsiFlag, fs.win
      ensures fs.Valid() && if old(Valid()) then Valid() else st == IntErr
      ensures st == Ok ==> At(index) && FirstBlank(Table(), index) && Table() == old(Table()) + z && ZeroMarked(z)
      ensures old(Valid()) ==> OnlyTableChanged(fs.geo, old(fs.Logical()), fs.Logical(), table)
      ensures st != Ok ==> table == old(table) && fs.Logical() == old(fs.Logical())
      ensures st != Ok && old(Valid()) ==> InUse(Table(), |Table()|)
      ensures st == Denied ==> FreeCount(Links(fs)) == 0 && !HasOne(Links(fs))
      ensures st == IntErr && old(Valid()) ==> HasOne(Links(fs))
      ensures st == NoFile ==> table.StaticRoot? || |Table()| == 0x1_0000
      ensures table == old(table) || (GrewBy(old(table), table) &&
        Grew(old(Links(fs)), Links(fs), old(table).chain, table.chain))
      ensures Follows(old(BooksOf(fs)), BooksOf(fs))
      ensures table != old(table) ==> InUse(old(Table()), |old(Table())|)
    {
      hide Sound, TableOk, Slots, PointsAt, HasSlot, Grew, FreeCount, HasOne, Fat, OnlyTableChanged, InUse, FirstBlank, Blank;
      ValidIsSound(fs);
      if Valid() {
        FirstSlot(fs.geo, |fs.disk|, Links(fs), table);
        OnlyTableRefl(fs.geo, fs.Logical(), table);
      }
      hide FatFs.Valid, FatFs.Logical;
      var ok := Sdi(0);
      if !ok {
        return IntErr, [];
      }
      st, z := SearchBlank();
    }

    /**
     * dir_register: on a well-formed directory without the name, insertion of an entry that holds
     * the name and zeros. On a good start cluster it fails only when every slot is in use and the
     * table cannot grow: a static or a full table (NoFile), no free cluster (Denied), or a cluster
     * that holds the link 1 (IntErr).
     */
    method Register() returns (st: Status)
      requires fs.Valid() && (BadStart() || Valid())
      modifies this`index, this`clust, this`sect, this`dir, this`table
      modifies fs`disk, fs`winsect, fs`wflag, fs`lastClust, fs`freeClust, fs`fsiFlag, fs.win
      ensures fs.Valid() && (!old(Valid()) ==> st == IntErr)
      ensures old(Valid()) ==> Valid() && OnlyTableChanged(fs.geo, old(fs.Logical()), fs.Logical(), table)
      ensures st == Ok ==> At(index) && index < |Table()| && Table()[index] == NewEntry(fn)
      ensures st == Ok && old(WellFormed(Table())) && Proper(fn) && fn !in old(Entries(Table())) ==>
        WellFormed(Table()) && Entries(Table()) == old(Entries(Table()))[fn := NewEntry(fn)]
      ensures st != Ok ==> table == old(table) && fs.Logical() == old(fs.Logical())
      ensures st != Ok && old(Valid()) ==> InUse(Table(), |Table()|)
      ensures st == Denied ==> FreeCount(Links(fs)) == 0 && !HasOne(Links(fs))
      ensures st == IntErr && old(Valid()) ==> HasOne(Links(fs))
      ensures st == NoFile ==> table.StaticRoot? || |Table()| == 0x1_0000
      ensures table == old(table) || (GrewBy(old(table), table) &&
        Grew(old(Links(fs)), Links(fs), old(table).chain, table.chain))
      ensures Follows(old(BooksOf(fs)), BooksOf(fs))
      ensures table != old(table) ==> InUse(old(Table()), |old(Table())|)
    {
      hide Sound, TableOk, Slots, PointsAt, HasSlot, Grew, FreeCount, HasOne, Fat, OnlyTableChanged, InUse, FirstBlank, Blank;
      hide WellFormed, Entries, NewEntry, Proper;
      ghost var d, t0 := fs.Logical(), Table();
      ghost var z;
      st, z := FindBlank();
      if st != Ok {
        return;
      }
      ghost var e := fs.Logical();
      PutEntry();
      OnlyTableTrans(fs.geo, d, e, fs.Logical(), table);
      if WellFormed(t0) && Proper(fn) && fn !in Entries(t0) {
        StretchIsNeutral(t0, z);
        RegisterIsInsert(t0 + z, fn, index);
      }
    }

    /** The entry goes into the current slot: cleared, then the name. */
    method PutEntry()
      requires Valid() && At(index) && FirstBlank(Table(), index)
      modifies fs`disk, fs`winsect, fs`wflag, fs.win
      ensures Valid() && Links(fs) == old(Links(fs)) && index < |Table()|
      ensures Table() == old(Table())[index := NewEntry(fn)]
      ensures OnlyTableChanged(fs.geo, old(fs.Logical()), fs.Logical(), table)
    {
      hide Sound, TableOk, Slots, HasSlot, FreeCount, Fat, OnlyTableChanged, SlotSector, Mirrored;
      ValidIsSound(fs);
      SlotSectorInside(fs.geo, |fs.disk|, Links(fs), table, index);
      ghost var d := fs.Logical();
      Show();
      StoreSlot(fs.geo, d, Links(fs), table, index, dir, NewEntry(fn), NewEntry(fn));
      fs.Patch(dir, NewEntry(fn));
    }

    /** dir_remove: on a well-formed directory, deletion of the name in the current slot. */
    method Remove() returns (ok: bool)
      requires Valid() && At(index) && index < |Table()|
      modifies this`index, this`clust, this`sect, this`dir, fs`disk, fs`winsect, fs`wflag, fs.win
      ensures ok && Valid() && At(index) && index == old(index) && Links(fs) == old(Links(fs))
      ensures Table() == old(Table())[index := old(Table())[index][0 := DELETED]]
      ensures OnlyTableChanged(fs.geo, old(fs.Logical()), fs.Logical(), table)
      ensures old(WellFormed(Table())) && Live(old(Table())[index]) ==>
        WellFormed(Table()) && Entries(Table()) == old(Entries(Table())) - {NameOf(old(Table())[index])}
    {
      hide Sound, TableOk, Slots, HasSlot, FreeCount, Fat, OnlyTableChanged, SlotSector, Mirrored, WellFormed, Entries, Live;
      ValidIsSound(fs);
      PointsInside(fs.geo, table, index, clust, sect, dir);
      SlotSectorInside(fs.geo, |fs.disk|, Links(fs), table, index);
      ghost var d, t, x := fs.Logical(), Table(), SlotSector(fs.geo, table, index);
      ok := Sdi(index);
      Show();
      SlotsAre(fs.geo, d, table, |d|, index);
      MarkInSector(d[x], index, DELETED);
      StoreSlot(fs.geo, d, Links(fs), table, index, dir, [DELETED], t[index][0 := DELETED]);
      fs.Patch(dir, [DELETED]);
      if WellFormed(t) && Live(t[index]) {
        RemoveIsDelete(t, index);
      }
    }
  }

  lemma NoneUsed(t: seq<Slot>)
    ensures InUse(t, 0)
  {
  }

  lemma BlankIs(e: Slot)
    ensures Blank(e) <==> e[0] == 0 || e[0] == 0xE5
  {
  }

  lemma TableInRange(g: Geo, f: seq<nat>, t: DirData.Table)
    requires TableOk(g, f, t)
    ensures t.Clusters? ==> InRange(g, t.chain)
  {
  }

  lemma PassNone(t: seq<Slot>, fn: Name)
    ensures Passed(t, fn, 0)
  {
  }

  lemma PointsInside(g: Geo, t: DirData.Table, i: nat, clust: nat, sect: nat, dir: nat)
    requires PointsAt(g, t, i, i, clust, sect, dir)
    ensures i < 0x1_0000 && HasSlot(g, t, i) && dir + 32 <= 512
  {
  }

  /** t' is t with one more cluster. */
  ghost predicate GrewBy(t: DirData.Table, t': DirData.Table) {
    && t.Clusters? && t'.Clusters?
    && |t'.chain| == |t.chain| + 1 && t'.chain == t.chain + [t'.chain[|t.chain|]]
  }

  ghost function NewCluster(t: DirData.Table): nat {
    if t.Clusters? && t.chain != [] then t.chain[|t.chain| - 1] else 0
  }

  lemma NewInRange(g: Geo, f: seq<nat>, s: seq<nat>, c: nat)
    requires |f| == g.nFatent && InRange(g, s) && IsChain(f, s) && 2 <= c < |f| && f[c] == 0
    ensures InRange(g, s + [c]) && c !in s
  {
    if c in s {
      ChainAllocated(f, s, c);
    }
  }

  lemma StaticStart(g: Geo, f: seq<nat>, t: DirData.Table, c: nat)
    requires TableOk(g, f, t) && StartsAt(t, c)
    ensures t.StaticRoot? <==> c == 0
  {
  }

  /** Slot idx in terms of the cluster it lies in. */
  lemma SlotInCluster(g: Geo, s: seq<nat>, idx: nat)
    requires 0 < g.csize && idx / 16 / g.csize < |s|
    ensures SlotSector(g, Clusters(s), idx) ==
      Clust2Sect(g, s[idx / 16 / g.csize]) + idx % (g.csize * 16) / 16
  {
    DivSlots(idx, g.csize);
  }

  /** After p whole clusters at least p clusters lie before index idx. */
  lemma PastTheEnd(g: Geo, p: nat, rest: nat, idx: nat)
    requires 0 < g.csize && idx == p * (16 * g.csize) + rest
    ensures p <= idx / 16 / g.csize
  {
    DivSlots(idx, g.csize);
    Arith.DivBelow(idx, g.csize * 16, p);
  }
}

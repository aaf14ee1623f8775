/**
 * The file system object and its one-sector write-back window.
 *
 * Everything above this module speaks of the logical disk: the contents the device will have
 * once a dirty window has been written back, mirror FAT included.
 */
module Window {
  import opened Bytes
  import opened Geometry

  /** A sector the window may carry changes for: the first FAT, the static root directory or the data area. */
  ghost predicate Dirtyable(g: Geo, total: nat, s: nat) {
    g.fatbase <= s < g.fatbase + g.fatSize || g.fatbase + FatArea(g) <= s < total
  }

  ghost predicate InFat(g: Geo, s: nat) {
    g.fatbase <= s < g.fatbase + g.fatSize
  }

  /** Storing sector `s` together with its reflection in the second FAT. */
  ghost function Store(g: Geo, d: Disk, s: nat, w: Sector): (r: Disk)
    requires Sound(g, |d|) && Dirtyable(g, |d|, s)
    ensures |r| == |d| && r[s] == w
  {
    if InFat(g, s) && g.nFats == 2 then d[s := w][s + g.fatSize := w] else d[s := w]
  }

  /** Every FAT copy equals the first one. */
  ghost predicate Mirrored(g: Geo, d: Disk)
    requires Sound(g, |d|)
  {
    g.nFats == 2 ==> forall s: nat :: InFat(g, s) ==> d[s + g.fatSize] == d[s]
  }

  /** FATFS. */
  class FatFs {
    const geo: Geo
    const fsiSector: nat
    const win: array<Byte>   // disk access window
    var disk: Disk           // the device
    var winsect: nat         // sector appearing in the window, 0: none
    var wflag: bool          // the window must be written back
    var lastClust: Dword     // last allocated cluster
    var freeClust: Dword     // number of free clusters, 0xFFFFFFFF: unknown
    var fsiFlag: bool        // FSInfo must be written back

    ghost predicate Valid()
      reads this, win
    {
      && win.Length == 512
      && Sound(geo, |disk|)
      && winsect < |disk|
      && (wflag ==> Dirtyable(geo, |disk|, winsect))
      && (!wflag && winsect != 0 ==> win[..] == disk[winsect])
    }

    /** The disk as it will be after write-back. */
    ghost function Logical(): (d: Disk)
      requires Valid()
      reads this, win
      ensures |d| == |disk|
    {
      if wflag then Store(geo, disk, winsect, win[..]) else disk
    }

    /** Mounting: the members chk_mounted sets for an accepted boot record at `bsect`. */
    constructor Mount(d: Disk, bsect: Dword)
      requires bsect < |d| <= 0x1_0000_0000
      requires MountGeometry(ReadBpb(d[bsect]), bsect).Some?
      requires Sound(MountGeometry(ReadBpb(d[bsect]), bsect).value, |d|)
      ensures Valid() && fresh(win)
      ensures geo == MountGeometry(ReadBpb(d[bsect]), bsect).value && geo.csize == d[bsect][13]
      ensures disk == d && Logical() == d && winsect == 0 && !wflag
      ensures !fsiFlag && fsiSector == FsiSector(d, bsect)
      ensures (freeClust, lastClust) == Counters(geo.fsType, d, fsiSector)
    {
      var g := MountGeometry(ReadBpb(d[bsect]), bsect).value;
      geo, disk, winsect, wflag := g, d, 0, false;
      var w := new Byte[512](i => 0);
      win := w;
      var free: Dword, last: Dword := 0xFFFFFFFF, 0;
      var fsi := FsiSector(d, bsect);
      if g.fsType == Fat32 && fsi < |d| && IsFsInfo(d[fsi]) {
        last := LdDword(d[fsi][492], d[fsi][493], d[fsi][494], d[fsi][495]);
        free := LdDword(d[fsi][488], d[fsi][489], d[fsi][490], d[fsi][491]);
      }
      fsiSector, fsiFlag, lastClust, freeClust := fsi, false, last, free;
    }

    /**
     * move_window: sector 0 only writes back a dirty window. The logical disk never changes;
     * afterwards the device equals it unless the window already showed the sector.
     */
    method MoveWindow(sector: nat)
      requires Valid() && sector < |disk|
      modifies this`disk, this`winsect, this`wflag, win
      ensures Valid() && |disk| == old(|disk|)
      ensures Logical() == old(Logical())
      ensures winsect == if sector == 0 then old(winsect) else sector
      ensures sector != 0 ==> win[..] == Logical()[sector]
      ensures sector == 0 ==> win[..] == old(win[..])
      ensures sector != old(winsect) ==> !wflag && disk == Logical()
      ensures sector == old(winsect) ==> wflag == old(wflag) && disk == old(disk)
    {
      var wsect := winsect;
      if wsect != sector {
        if wflag {
          disk := disk[wsect := win[..]];
          wflag := false;
          if wsect < geo.fatbase + geo.fatSize {
            var nf := geo.nFats;
            ghost var d1 := disk;
            while nf > 1
              invariant nf <= 2 && |disk| == |d1|
              invariant nf == geo.nFats ==> disk == d1 && wsect == winsect
              invariant nf != geo.nFats ==> nf == 1 && disk == d1[winsect + geo.fatSize := win[..]]
              modifies this`disk
              decreases nf
            {
              wsect := wsect + geo.fatSize;
              disk := disk[wsect := win[..]];
              nf := nf - 1;
            }
          }
        }
        assert win[..] == old(win[..]);
        if sector != 0 {
          MemCpy(win, 0, disk[sector]);
          winsect := sector;
        }
      }
    }

    /** Laying bytes over the window and marking it dirty, the way every writer above does. */
    method Patch(at: nat, src: seq<Byte>)
      requires Valid() && Dirtyable(geo, |disk|, winsect) && at + |src| <= 512
      modifies this`wflag, win
      ensures Valid() && wflag
      ensures win[..] == Splice(old(win[..]), at, src)
      ensures Logical() == Store(geo, old(Logical()), winsect, win[..])
    {
      MemCpy(win, at, src);
      StoreTwice(geo, disk, winsect, old(win[..]), win[..]);
      wflag := true;
    }

    /** sync: afterwards the device is the logical disk, with FSInfo brought up to date on FAT32. */
    method Sync()
      requires Valid() && (geo.fsType == Fat32 ==> fsiSector < |disk|)
      modifies this`disk, this`winsect, this`wflag, this`fsiFlag, win
      ensures Valid() && !wflag && !fsiFlag == (geo.fsType == Fat32 || !old(fsiFlag))
      ensures disk == Logical()
      ensures disk == if geo.fsType == Fat32 && old(fsiFlag)
                      then old(Logical())[fsiSector := FsInfo(freeClust, lastClust)]
                      else old(Logical())
    {
      MoveWindow(0);
      if geo.fsType == Fat32 && fsiFlag {
        winsect := 0;
        FillFsInfo(win, freeClust, lastClust);
        disk := disk[fsiSector := win[..]];
        fsiFlag := false;
      }
    }
  }

  /** A later store to a sector supersedes an earlier one, mirror included. */
  lemma ValidIsSound(fs: FatFs)
    requires fs.Valid()
    ensures Sound(fs.geo, |fs.disk|) && |fs.Logical()| == |fs.disk| && fs.win.Length == 512
  {
  }

  lemma StoreTwice(g: Geo, d: Disk, s: nat, v: Sector, w: Sector)
    requires Sound(g, |d|) && Dirtyable(g, |d|, s)
    ensures Store(g, Store(g, d, s, v), s, w) == Store(g, d, s, w)
  {
  }

  /** What a store leaves alone. */
  lemma StoreElsewhere(g: Geo, d: Disk, s: nat, w: Sector, t: nat)
    requires Sound(g, |d|) && Dirtyable(g, |d|, s) && t < |d|
    requires t != s && (InFat(g, s) && g.nFats == 2 ==> t != s + g.fatSize)
    ensures Store(g, d, s, w)[t] == d[t]
  {
  }

  /** Stores keep the FAT copies equal. */
  lemma StoreKeepsMirror(g: Geo, d: Disk, s: nat, w: Sector)
    requires Sound(g, |d|) && Dirtyable(g, |d|, s) && Mirrored(g, d)
    ensures Mirrored(g, Store(g, d, s, w))
  {
  }

  /** The FSInfo sector sync writes. */
  function FsInfo(free: Dword, last: Dword): Sector {
    var s := Splice(Splice(ZeroSector(), 510, StWord(0xAA55)), 0, StDword(0x41615252));
    Splice(Splice(Splice(s, 484, StDword(0x61417272)), 488, StDword(free)), 492, StDword(last))
  }

  /** The signatures an FSInfo sector must carry. */
  predicate IsFsInfo(s: Sector) {
    && LdWord(s[510], s[511]) == 0xAA55
    && LdDword(s[0], s[1], s[2], s[3]) == 0x41615252
    && LdDword(s[484], s[485], s[486], s[487]) == 0x61417272
  }

  /** The stores that compose it in the window. */
  method FillFsInfo(win: array<Byte>, free: Dword, last: Dword)
    requires win.Length == 512
    modifies win
    ensures win[..] == FsInfo(free, last)
  {
    MemSet(win, 0, 0, 512);
    assert win[..] == ZeroSector();
    MemCpy(win, 510, StWord(0xAA55));
    MemCpy(win, 0, StDword(0x41615252));
    MemCpy(win, 484, StDword(0x61417272));
    MemCpy(win, 488, StDword(free));
    MemCpy(win, 492, StDword(last));
  }

  /** The FSInfo sector a boot record names. */
  function FsiSector(d: Disk, bsect: nat): nat
    requires bsect < |d|
  {
    W32(bsect + LdWord(d[bsect][48], d[bsect][49]))
  }

  /** It is counted from the boot record. */
  lemma FsiSectorIsStored(d: Disk, bsect: nat, v: Word)
    requires bsect < |d| && d[bsect][48..50] == StWord(v) && bsect + v < 0x1_0000_0000
    ensures FsiSector(d, bsect) == bsect + v
  {
    WordAt(d[bsect], 48, v);
  }

  /** The free count and the allocation hint a mounted volume starts with. */
  function Counters(t: FatType, d: Disk, fsi: nat): (Dword, Dword) {
    if t == Fat32 && fsi < |d| && IsFsInfo(d[fsi]) then
      (LdDword(d[fsi][488], d[fsi][489], d[fsi][490], d[fsi][491]),
       LdDword(d[fsi][492], d[fsi][493], d[fsi][494], d[fsi][495]))
    else (0xFFFFFFFF, 0)
  }

  /** Mounting the disk that sync leaves recovers both counters. */
  lemma CountersSurvive(d: Disk, bsect: nat, free: Dword, last: Dword)
    requires bsect < |d| && FsiSector(d, bsect) < |d| && FsiSector(d, bsect) != bsect
    ensures var fsi := FsiSector(d, bsect); var e := d[fsi := FsInfo(free, last)];
      && ReadBpb(e[bsect]) == ReadBpb(d[bsect]) && FsiSector(e, bsect) == fsi
      && Counters(Fat32, e, fsi) == (free, last)
  {
    FsInfoRoundTrip(free, last);
    hide FsInfo, IsFsInfo, LdDword, ReadBpb, LdWord;
  }

  /** The sector sync writes carries the signatures and both counters. */
  lemma FsInfoRoundTrip(free: Dword, last: Dword)
    ensures var s := FsInfo(free, last);
      && IsFsInfo(s)
      && LdDword(s[488], s[489], s[490], s[491]) == free
      && LdDword(s[492], s[493], s[494], s[495]) == last
  {
    FsInfoBytes(free, last);
    var s := FsInfo(free, last);
    hide FsInfo, StWord, StDword, LdWord, LdDword;
    assert s[510] == s[510..512][0] && s[511] == s[510..512][1];
    DwordAt(s, 0, 0x41615252);
    DwordAt(s, 484, 0x61417272);
    DwordAt(s, 488, free);
    DwordAt(s, 492, last);
  }

  lemma FsInfoBytes(free: Dword, last: Dword)
    ensures var s := FsInfo(free, last);
      && s[510..512] == StWord(0xAA55) && s[0..4] == StDword(0x41615252) && s[484..488] == StDword(0x61417272)
      && s[488..492] == StDword(free) && s[492..496] == StDword(last)
  {
    hide StWord, StDword, Splice;
    var s1 := Splice(ZeroSector(), 510, StWord(0xAA55));
    var s2 := Splice(s1, 0, StDword(0x41615252));
    var s3 := Splice(s2, 484, StDword(0x61417272));
    var s4 := Splice(s3, 488, StDword(free));
    var s5 := Splice(s4, 492, StDword(last));
    hide ZeroSector;
    Spliced(ZeroSector(), 510, StWord(0xAA55), 510, 2);
    Spliced(s1, 0, StDword(0x41615252), 510, 2);
    Spliced(s2, 484, StDword(0x61417272), 510, 2);
    Spliced(s2, 484, StDword(0x61417272), 0, 4);
    Spliced(s3, 488, StDword(free), 510, 2);
    Spliced(s3, 488, StDword(free), 0, 4);
    Spliced(s3, 488, StDword(free), 484, 4);
    Spliced(s4, 492, StDword(last), 510, 2);
    Spliced(s4, 492, StDword(last), 0, 4);
    Spliced(s4, 492, StDword(last), 484, 4);
    Spliced(s4, 492, StDword(last), 488, 4);
  }

  /** The stored bytes stand where they were stored, and bytes beside them stay. */
  lemma Spliced(s: Sector, at: nat, t: seq<Byte>, i: nat, n: nat)
    requires at + |t| <= 512 && i + n <= 512 && (i + n <= at || at + |t| <= i || (i == at && n == |t|))
    ensures Splice(s, at, t)[at..at + |t|] == t
    ensures i != at ==> Splice(s, at, t)[i..i + n] == s[i..i + n]
  {
  }
}

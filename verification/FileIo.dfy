/** f_read, f_write, f_lseek and f_truncate on an open file. */
module FileIo {
  import opened Bytes
  import opened Geometry
  import opened Window
  import opened FatAccess
  import opened Chains
  import opened Allocator
  import opened FileData
  import opened Transfer
  import Arith
  import ChainRuns

  datatype Status = Ok | Full | IntErr | Denied

  /** FIL. */
  class Fil {
    const fs: FatFs
    var canRead: bool    // FA_READ
    var canWrite: bool   // FA_WRITE
    var error: bool      // FA__ERROR
    var written: bool    // FA__WRITTEN
    var fptr: nat        // read/write pointer
    var fsize: nat       // file size
    var sclust: nat      // first cluster, 0 when none
    var clust: nat       // current cluster
    var dsect: nat       // current data sector

    ghost var chain: seq<nat>  // the clusters of the file

    /** The file owns a chain of the FAT that is long enough for its size and its cursor. */
    ghost predicate Attached()
      reads this, fs, fs.win
    {
      && fs.Valid()
      && InRange(fs.geo, chain)
      && (sclust == 0 <==> chain == [])
      && (chain != [] ==> IsChain(Links(fs), chain) && chain[0] == sclust)
      && Fits(fs.geo, chain, fsize)
      && Fits(fs.geo, chain, fptr)
    }

    /** The cursor names the cluster of the byte before it and, inside a sector, the sector. */
    ghost predicate Cursor()
      requires Attached()
      reads this, fs, fs.win
    {
      && (fptr > 0 ==> clust == chain[ClusterIndex(fs.geo, fptr - 1)])
      && (fptr % 512 != 0 ==> ClusterIndex(fs.geo, fptr) < |chain| && dsect == SectAt(fs.geo, chain, fptr / 512))
    }

    /** What holds between two calls on an open file without error. */
    ghost predicate Valid()
      reads this, fs, fs.win
    {
      Attached() && Cursor() && fptr <= fsize < 0x1_0000_0000
    }

    /** The contents. */
    ghost function Byte(i: nat): Byte
      requires Attached() && i < fsize
      reads this, fs, fs.win
    {
      FitsBelow(fs.geo, chain, fsize, i);
      ByteAt(fs.geo, fs.Logical(), chain, i)
    }

    /** The file object f_open leaves for a directory entry with this start cluster and size. */
    constructor Open(fs: FatFs, read: bool, write: bool, sclust: nat, fsize: Dword, ghost chain: seq<nat>)
      requires fs.Valid() && InRange(fs.geo, chain) && (sclust == 0 <==> chain == [])
      requires chain != [] ==> IsChain(Links(fs), chain) && chain[0] == sclust
      requires Fits(fs.geo, chain, fsize)
      ensures this.fs == fs && this.chain == chain && Valid()
      ensures canRead == read && canWrite == write && !error && !written
      ensures fptr == 0 && this.fsize == fsize && this.sclust == sclust
    {
      this.fs, this.chain := fs, chain;
      canRead, canWrite, error, written := read, write, false, false;
      this.sclust, this.fsize, fptr, clust, dsect := sclust, fsize, 0, 0, 0;
    }

    /** create_chain(fs, 0) for a file without clusters. */
    method FirstCluster() returns (clst: nat)
      requires Attached() && chain == []
      modifies this`sclust, this`chain
      modifies fs`disk, fs`winsect, fs`wflag, fs`lastClust, fs`freeClust, fs`fsiFlag, fs.win
      ensures fs.Valid() && OnlyFatChanged(fs.geo, old(fs.Logical()), fs.Logical())
      ensures clst < 2 ==> chain == [] && fs.Logical() == old(fs.Logical())
      ensures clst == 0 ==> Attached() && FreeCount(Links(fs)) == 0 && !HasOne(Links(fs))
      ensures clst == 1 ==> HasOne(Links(fs))
      ensures clst >= 2 ==> Attached() && chain == [clst]
      ensures Grew(old(Links(fs)), Links(fs), [], chain)
      ensures clst < 2 ==> sclust == old(sclust)
      ensures Follows(old(BooksOf(fs)), BooksOf(fs))
    {
      hide Fat, Sound, OnlyFatChanged, Grew, IsChain, Grown, ScanFinds, FreeCount, HasOne, InRange, Fits;
      SoundCsize(fs.geo, |fs.disk|);
      EndMarkFits(fs.geo, |fs.disk|);
      ghost var f := Links(fs);
      GrewRefl(f, []);
      clst := CreateChain(fs, 0);
      ScanOutcome(f, ScanStart(fs.geo.nFatent, 0, old(fs.lastClust)), clst);
      if clst >= 2 {
        sclust := clst;
        GrowEmpty(f, clst, EndMark(fs.geo.fsType));
        chain := [clst];
        GrewIsChain(f, Links(fs), [], chain);
        Longer(fs.geo, [], chain, fsize, fptr);
      }
    }

    /** create_chain(fs, clust) on the cluster at position i of the chain. */
    method NextCluster(from: nat, ghost i: nat) returns (clst: nat)
      requires Attached() && i < |chain| && from == chain[i]
      modifies this`chain
      modifies fs`disk, fs`winsect, fs`wflag, fs`lastClust, fs`freeClust, fs`fsiFlag, fs.win
      ensures fs.Valid() && OnlyFatChanged(fs.geo, old(fs.Logical()), fs.Logical())
      ensures clst < 2 ==> chain == old(chain) && fs.Logical() == old(fs.Logical())
      ensures clst == 0 ==> FreeCount(Links(fs)) == 0 && !HasOne(Links(fs)) && i + 1 == |chain|
      ensures clst == 1 ==> HasOne(Links(fs)) && i + 1 == |chain|
      ensures Attached()
      ensures clst >= 2 ==> i + 1 < |chain| && clst == chain[i + 1]
      ensures Grew(old(Links(fs)), Links(fs), old(chain), chain)
      ensures i + 1 < old(|chain|) ==> clst >= 2 && chain == old(chain) && fs.Logical() == old(fs.Logical())
      ensures |chain| <= old(|chain|) + 1
      ensures Follows(old(BooksOf(fs)), BooksOf(fs))
    {
      hide Fat, Sound, OnlyFatChanged, Grew, IsChain, Grown, ScanFinds, FreeCount, HasOne, InRange, Fits;
      SoundCsize(fs.geo, |fs.disk|);
      EndMarkFits(fs.geo, |fs.disk|);
      ghost var f, s := Links(fs), chain;
      GrewRefl(f, s);
      ChainLink(f, s, i);
      clst := CreateChain(fs, from);
      if i + 1 == |s| {
        ScanOutcome(f, ScanStart(fs.geo.nFatent, from, old(fs.lastClust)), clst);
        if clst >= 2 {
          GrowLast(f, s, clst, EndMark(fs.geo.fsType));
          chain := s + [clst];
          GrewIsChain(f, Links(fs), s, chain);
          Longer(fs.geo, s, chain, fsize, fptr);
        }
      } else {
        ChainLink(f, s, i + 1);
      }
    }

    /**
     * The cluster step of f_write at a cluster boundary: follow the chain or stretch it.
     * 0 means the disk is full, 1 that the scan met an invalid link.
     */
    method ClusterForWrite() returns (clst: nat)
      requires Attached() && Cursor() && fptr % 512 == 0 && fptr / 512 % fs.geo.csize == 0
      modifies this`sclust, this`clust, this`chain
      modifies fs`disk, fs`winsect, fs`wflag, fs`lastClust, fs`freeClust, fs`fsiFlag, fs.win
      ensures fs.Valid() && OnlyFatChanged(fs.geo, old(fs.Logical()), fs.Logical())
      ensures clst < 2 ==> chain == old(chain) && fs.Logical() == old(fs.Logical())
      ensures clst == 0 ==> Attached() && Cursor() && FreeCount(Links(fs)) == 0 && !HasOne(Links(fs))
      ensures clst < 2 ==> fptr == ChainBytes(fs.geo, chain)
      ensures clst == 1 ==> HasOne(Links(fs)) && (chain == [] ==> sclust == 1)
      ensures clst >= 2 ==> Attached() && ClusterIndex(fs.geo, fptr) < |chain|
      ensures clst >= 2 ==> clust == clst == chain[ClusterIndex(fs.geo, fptr)]
      ensures Grew(old(Links(fs)), Links(fs), old(chain), chain)
      ensures Follows(old(BooksOf(fs)), BooksOf(fs))
      ensures clst >= 2 ==> |chain| == Max(old(|chain|), ClusterIndex(fs.geo, fptr) + 1)
    {
      hide Fat, Sound, OnlyFatChanged, Grew, IsChain, FreeCount, HasOne, BooksOf, InRange, ClusterIndex, ChainBytes;
      SoundCsize(fs.geo, |fs.disk|);
      OnlyFatRefl(fs.geo, fs.Logical());
      GrewRefl(Links(fs), chain);
      if fptr == 0 {
        FirstIndex(fs.geo);
        NoBytes(fs.geo);
        clst := sclust;
        if clst == 0 {
          clst := FirstCluster();
          sclust := clst;  // stored whatever create_chain returned
        } else {
          ChainLink(Links(fs), chain, 0);
        }
      } else {
        BoundaryIndex(fs.geo, fptr);
        ghost var i := ClusterIndex(fs.geo, fptr - 1);
        FilledChain(fs.geo, chain, fptr);
        clst := NextCluster(clust, i);
      }
      if clst >= 2 {
        clust := clst;
      }
    }

    /** The byte `fptr` lies in the current cluster. */
    ghost predicate InCluster()
      requires Attached()
      reads this, fs, fs.win
    {
      ClusterIndex(fs.geo, fptr) < |chain| && clust == chain[ClusterIndex(fs.geo, fptr)]
    }

    /** The current data sector is the one that holds byte `fptr`. */
    ghost predicate InSector()
      requires Attached() && InCluster()
      reads this, fs, fs.win
    {
      dsect == SectAt(fs.geo, chain, fptr / 512)
    }

    /** The direct branch of f_write: as many whole sectors as fit into the cluster. */
    method PutDirect(wbuff: seq<Byte>, ghost size: nat) returns (n: nat)
      requires Attached() && InCluster() && fptr % 512 == 0 && 512 <= |wbuff|
      requires Fits(fs.geo, chain, size)
      modifies this`fptr, fs`disk, fs`wflag, fs.win
      ensures Attached() && Cursor() && Links(fs) == old(Links(fs))
      ensures 0 < n <= |wbuff| && fptr == old(fptr) + n
      ensures OnlyChainChanged(fs.geo, old(fs.Logical()), fs.Logical(), chain)
      ensures BytesPut(fs.geo, old(fs.Logical()), chain, fs.Logical(), chain, old(fptr), wbuff[..n], size)
      ensures ClusterIndex(fs.geo, fptr - 1) == old(ClusterIndex(fs.geo, fptr))
    {
      hide Sound, IsChain, InRange, PutRun, OnlyChainChanged, BytesPut, Fat, Clust2Sect, Fits, SectAt, ClusterIndex, Clip;
      ValidIsSound(fs);
      SoundCsize(fs.geo, |fs.disk|);
      hide FatFs.Valid, FatFs.Logical;
      ghost var d := fs.Logical();
      RemainderBelow(fptr / 512, fs.geo.csize);
      CurrentSector(fs.geo, chain, fptr);
      var csect := fptr / 512 % fs.geo.csize;
      var sect := Clust2Sect(fs.geo, clust) + csect;
      var cc := Clip(|wbuff|, csect, fs.geo.csize);
      n := 512 * cc;
      var data := wbuff[..n];
      Arith.DivUnique(|data|, 512, cc, 0);
      DirectPut(fs.geo, d, chain, fptr, data, size);
      WriteRun(fs, sect, data);
      Arith.DivUnique(fptr + n, 512, fptr / 512 + cc, 0);
      fptr := fptr + n;
    }

    /** The window branch of f_write: at most up to the end of the current sector. */
    method PutPart(wbuff: seq<Byte>, grow: bool, ghost size: nat) returns (n: nat)
      requires Attached() && InCluster() && InSector() && 0 < |wbuff|
      requires Fits(fs.geo, chain, size) && (grow ==> fptr % 512 == 0 && size <= fptr)
      modifies this`fptr, fs`disk, fs`winsect, fs`wflag, fs.win
      ensures Attached() && Cursor() && Links(fs) == old(Links(fs))
      ensures 0 < n <= |wbuff| && fptr == old(fptr) + n
      ensures OnlyChainChanged(fs.geo, old(fs.Logical()), fs.Logical(), chain)
      ensures BytesPut(fs.geo, old(fs.Logical()), chain, fs.Logical(), chain, old(fptr), wbuff[..n], size)
      ensures ClusterIndex(fs.geo, fptr - 1) == old(ClusterIndex(fs.geo, fptr))
    {
      hide Sound, IsChain, InRange, OnlyChainChanged, BytesPut, Fat, SectAt, Fits, SectorPut;
      SoundCsize(fs.geo, |fs.disk|);
      ghost var d := fs.Logical();
      n := 512 - fptr % 512;
      if n > |wbuff| {
        n := |wbuff|;
      }
      SectAtInside(fs.geo, |d|, chain, fptr / 512);
      ghost var w := WritePart(fs, dsect, fptr % 512, wbuff[..n], grow);
      PartPut(fs.geo, d, chain, fptr, wbuff[..n], w, !grow, size);
      fptr := fptr + n;
    }

    /**
     * The part of f_write's loop body before any data moves: at a sector boundary find the cluster
     * and sector of the cursor. `st` is Ok exactly when there is one.
     */
    method Locate() returns (st: Status, sect: nat)
      requires Attached() && Cursor() && !error
      modifies this`sclust, this`clust, this`chain, this`error
      modifies fs`disk, fs`winsect, fs`wflag, fs`lastClust, fs`freeClust, fs`fsiFlag, fs.win
      ensures fs.Valid() && OnlyFatChanged(fs.geo, old(fs.Logical()), fs.Logical())
      ensures Grew(old(Links(fs)), Links(fs), old(chain), chain)
      ensures st == Ok || st == Full || st == IntErr
      ensures error <==> st == IntErr
      ensures st != Ok ==> fptr == ChainBytes(fs.geo, chain)
      ensures st != IntErr ==> Attached()
      ensures st != Ok ==> chain == old(chain) && fs.Logical() == old(fs.Logical())
      ensures st == Full ==> Cursor() && FreeCount(Links(fs)) == 0 && !HasOne(Links(fs))
      ensures st == IntErr ==> HasOne(Links(fs)) && (chain == [] ==> sclust == 1)
      ensures st == Ok ==> InCluster() && sect == SectAt(fs.geo, chain, fptr / 512)
      ensures st == Ok && fptr % 512 != 0 ==> sect == dsect
      ensures Follows(old(BooksOf(fs)), BooksOf(fs))
      ensures st == Ok ==> |chain| == Max(old(|chain|), ClusterIndex(fs.geo, fptr) + 1)
    {
      hide Sound, OnlyFatChanged, Grew, FreeCount, HasOne, ChainBytes, InRange, Fits, IsChain, Fat, SectAt, ClusterIndex;
      ValidIsSound(fs);
      SoundCsize(fs.geo, |fs.disk|);
      st, sect := Ok, dsect;
      OnlyFatRefl(fs.geo, fs.Logical());
      GrewRefl(Links(fs), chain);
      var csect := fptr / 512 % fs.geo.csize;
      if fptr % 512 == 0 && csect == 0 {
        var clst := ClusterForWrite();
        if clst == 0 {
          return Full, 0;
        }
        if clst == 1 {
          error := true;
          return IntErr, 0;
        }
      } else {
        ZeroIsBoundary(fs.geo, fptr);
        InnerIndex(fs.geo, fptr);
        FitsBelow(fs.geo, chain, fptr, fptr - 1);
      }
      if fptr % 512 == 0 {
        if fs.winsect == dsect {
          fs.MoveWindow(0);
        }
        CurrentSector(fs.geo, chain, fptr);
        sect := Clust2Sect(fs.geo, clust) + csect;
      }
    }

    /** One round of f_write's loop: n bytes of wbuff, or the reason why there is no room for any. */
    method WriteChunk(wbuff: seq<Byte>) returns (n: nat, st: Status)
      requires Attached() && Cursor() && !error && 0 < |wbuff|
      modifies this`sclust, this`clust, this`chain, this`error, this`dsect, this`fptr
      modifies fs`disk, fs`winsect, fs`wflag, fs`lastClust, fs`freeClust, fs`fsiFlag, fs.win
      ensures fs.Valid() && OnlyChainChanged(fs.geo, old(fs.Logical()), fs.Logical(), chain)
      ensures Grew(old(Links(fs)), Links(fs), old(chain), chain)
      ensures st == Ok || st == Full || st == IntErr
      ensures error <==> st == IntErr
      ensures st != Ok ==> fptr == ChainBytes(fs.geo, chain)
      ensures st != Ok ==> n == 0 && fptr == old(fptr) && chain == old(chain) && fs.Logical() == old(fs.Logical())
      ensures st != IntErr ==> Attached() && Cursor()
      ensures st == Full ==> FreeCount(Links(fs)) == 0 && !HasOne(Links(fs))
      ensures st == IntErr ==> HasOne(Links(fs)) && (chain == [] ==> sclust == 1)
      ensures st == Ok ==> 0 < n <= |wbuff| && fptr == old(fptr) + n
      ensures st == Ok ==>
        BytesPut(fs.geo, old(fs.Logical()), old(chain), fs.Logical(), chain, old(fptr), wbuff[..n], Max(fsize, old(fptr)))
      ensures Follows(old(BooksOf(fs)), BooksOf(fs))
      ensures st == Ok ==> |chain| == Max(old(|chain|), ClustersFor(fptr))
    {
      hide Sound, OnlyFatChanged, OnlyChainChanged, Grew, FreeCount, HasOne, ChainBytes, InRange, Fits, IsChain, Fat, SectAt, ClusterIndex, BytesPut;
      ValidIsSound(fs);
      SoundCsize(fs.geo, |fs.disk|);
      ghost var d, s, p := fs.Logical(), chain, fptr;
      ghost var size := Max(fsize, fptr);
      var sect;
      n := 0;
      st, sect := Locate();
      OnlyFatIsOnlyChain(fs.geo, d, fs.Logical(), chain);
      if st != Ok {
        return;
      }
      ghost var e := fs.Logical();
      GrewPrefix(old(Links(fs)), Links(fs), s, chain);
      BytesKept(fs.geo, d, e, s, chain, fptr, size);
      if fptr % 512 == 0 && |wbuff| / 512 != 0 {
        n := PutDirect(wbuff, size);
      } else {
        var grow := fptr % 512 == 0 && fptr >= fsize;
        dsect := sect;
        n := PutPart(wbuff, grow, size);
      }
      OnlyChainTrans(fs.geo, d, e, fs.Logical(), chain, chain);
      BytesPutTrans(fs.geo, d, s, e, chain, fs.Logical(), chain, p, [], wbuff[..n], size, size);
      assert [] + wbuff[..n] == wbuff[..n];
    }

    /** The loop of f_write, which leaves the size to its caller. */
    method WriteLoop(wbuff: seq<Byte>, btw: nat) returns (bw: nat, st: Status)
      requires Valid() && btw <= |wbuff| && !error
      modifies this`sclust, this`clust, this`chain, this`error, this`dsect, this`fptr
      modifies fs`disk, fs`winsect, fs`wflag, fs`lastClust, fs`freeClust, fs`fsiFlag, fs.win
      ensures fs.Valid() && (st == Ok || st == IntErr) && error == (st == IntErr)
      ensures OnlyChainChanged(fs.geo, old(fs.Logical()), fs.Logical(), chain)
      ensures Grew(old(Links(fs)), Links(fs), old(chain), chain)
      ensures bw <= btw && fptr == old(fptr) + bw && (st == Ok ==> Attached() && Cursor())
      ensures BytesPut(fs.geo, old(fs.Logical()), old(chain), fs.Logical(), chain, old(fptr), wbuff[..bw], old(fsize))
      ensures bw < btw ==> fptr == ChainBytes(fs.geo, chain)
      ensures st == IntErr ==> bw < btw && HasOne(old(Links(fs))) && (chain == [] ==> sclust == 1)
      ensures st == Ok && bw < btw ==> FreeCount(Links(fs)) == 0 && !HasOne(old(Links(fs)))
      ensures Follows(old(BooksOf(fs)), BooksOf(fs))
      ensures |chain| == Max(old(|chain|), ClustersFor(fptr))
    {
      hide Sound, OnlyFatChanged, OnlyChainChanged, Grew, FreeCount, HasOne, ChainBytes, InRange, Fits, IsChain, Fat, SectAt, ClusterIndex, BytesPut;
      ValidIsSound(fs);
      bw, st := 0, Ok;
      ghost var d, s, f, p := fs.Logical(), chain, Links(fs), fptr;
      OnlyFatRefl(fs.geo, d);
      OnlyFatIsOnlyChain(fs.geo, d, d, chain);
      GrewRefl(f, s);
      BytesPutRefl(fs.geo, d, s, p, fsize);
      ChainOrNone(f, s);
      SoundCsize(fs.geo, |fs.disk|);
      LongEnough();
      hide FatFs.Valid, FatFs.Logical, BooksOf, ClustersFor;
      while bw < btw
        invariant fs.Valid() && Attached() && Cursor() && !error && st == Ok
        invariant bw <= btw <= |wbuff| && fptr == p + bw && fsize == old(fsize)
        invariant OnlyChainChanged(fs.geo, d, fs.Logical(), chain) && Grew(f, Links(fs), s, chain)
        invariant BytesPut(fs.geo, d, s, fs.Logical(), chain, p, wbuff[..bw], fsize)
        invariant Follows(old(BooksOf(fs)), BooksOf(fs)) && |chain| == Max(|s|, ClustersFor(fptr))
      {
        ghost var e, t, l, mid := fs.Logical(), chain, Links(fs), Max(fsize, fptr);
        var n, got := WriteChunk(wbuff[bw..btw]);
        GrewPrefix(l, Links(fs), t, chain);
        GrewKeepsOnes(f, l, s, t);
        MoreClusters(p + bw, fptr);
        OnlyChainTrans(fs.geo, d, e, fs.Logical(), t, chain);
        ChainTrans(f, l, Links(fs), s, t, chain);
        if got == Full {
          break;
        }
        if got == IntErr {
          st := IntErr;
          return;
        }
        BytesPutTrans(fs.geo, d, s, e, t, fs.Logical(), chain, p, wbuff[..bw], wbuff[bw..btw][..n], fsize, mid);
        assert wbuff[..bw] + wbuff[bw..btw][..n] == wbuff[..bw + n];
        bw := bw + n;
      }
    }

    /**
     * f_write. Without an error the file is the old one with the first bw bytes of wbuff laid over
     * it at the old pointer and its size grown to the new pointer if that is larger; only clusters
     * of the file and clusters that were free have changed, in the FAT and on the disk. When old
     * size plus length reaches 4 GB nothing is written. Otherwise all bytes are put, unless
     * the pointer reaches the end of the clusters of the file, and then no cluster is free (a short
     * count) or some cluster holds the link 1 (an error; the bytes put before it are there, and a
     * file without clusters gets start cluster 1).
     */
    method Write(wbuff: seq<Byte>) returns (bw: nat, st: Status)
      requires Valid() && |wbuff| < 0x1_0000_0000
      modifies this`sclust, this`clust, this`chain, this`error, this`written, this`dsect, this`fptr, this`fsize
      modifies fs`disk, fs`winsect, fs`wflag, fs`lastClust, fs`freeClust, fs`fsiFlag, fs.win
      ensures fs.Valid()
      ensures st == if old(error) then IntErr else if !canWrite then Denied else if error then IntErr else Ok
      ensures old(error) || !canWrite ==>
        bw == 0 && Valid() && fs.Logical() == old(fs.Logical()) && chain == old(chain) &&
        fptr == old(fptr) && fsize == old(fsize)
      ensures OnlyChainChanged(fs.geo, old(fs.Logical()), fs.Logical(), chain)
      ensures Grew(old(Links(fs)), Links(fs), old(chain), chain)
      ensures st == Ok ==> Valid() && written
      ensures !old(error) && canWrite ==>
        && bw <= |wbuff| && fptr == old(fptr) + bw
        && BytesPut(fs.geo, old(fs.Logical()), old(chain), fs.Logical(), chain, old(fptr), wbuff[..bw], old(fsize))
      ensures st == Ok ==> fsize == Max(old(fsize), fptr)
      ensures !old(error) && canWrite ==> |chain| == Max(old(|chain|), ClustersFor(fptr))
      ensures st != Ok ==> written == old(written)
      ensures st == Ok && bw < |wbuff| && old(fsize) + |wbuff| < 0x1_0000_0000 ==>
        fptr == ChainBytes(fs.geo, chain) && FreeCount(Links(fs)) == 0 && !HasOne(old(Links(fs)))
      ensures !old(error) && canWrite && old(fsize) + |wbuff| >= 0x1_0000_0000 ==> st == Ok && bw == 0
      ensures st == IntErr && !old(error) ==>
        && bw < |wbuff| && fsize == old(fsize) && fptr == ChainBytes(fs.geo, chain)
        && HasOne(old(Links(fs))) && (chain == [] ==> sclust == 1)
      ensures Follows(old(BooksOf(fs)), BooksOf(fs))
    {
      hide Sound, OnlyFatChanged, OnlyChainChanged, Grew, FreeCount, HasOne, BooksOf, ChainBytes, InRange, Fits, IsChain, Fat, SectAt, ClusterIndex, BytesPut;
      ValidIsSound(fs);
      bw, st := 0, Ok;
      ghost var d, s, f, p := fs.Logical(), chain, Links(fs), fptr;
      OnlyFatRefl(fs.geo, d);
      OnlyFatIsOnlyChain(fs.geo, d, d, chain);
      GrewRefl(f, s);
      if error {
        return 0, IntErr;
      }
      if !canWrite {
        return 0, Denied;
      }
      var btw := if W32(fsize + |wbuff|) < fsize then 0 else |wbuff|;
      bw, st := WriteLoop(wbuff, btw);
      if st == IntErr {
        return;
      }
      if fptr > fsize {
        fsize := fptr;
      }
      written := true;
    }

    /** The cluster step of f_read: the first cluster, or the link of the current one. */
    method ClusterForRead() returns (clst: nat)
      requires Valid() && fptr < fsize && fptr % 512 == 0 && fptr / 512 % fs.geo.csize == 0
      modifies fs`disk, fs`winsect, fs`wflag, fs.win
      ensures Valid() && fs.Logical() == old(fs.Logical())
      ensures ClusterIndex(fs.geo, fptr) < |chain| && clst == chain[ClusterIndex(fs.geo, fptr)]
      ensures 2 <= clst < fs.geo.nFatent
    {
      hide Sound, InRange, IsChain, Fat, SectAt, ClusterIndex;
      ValidIsSound(fs);
      SoundCsize(fs.geo, |fs.disk|);
      FitsBelow(fs.geo, chain, fsize, fptr);
      ghost var i := ClusterIndex(fs.geo, fptr);
      ChainLink(Links(fs), chain, i);
      if fptr == 0 {
        FirstIndex(fs.geo);
        clst := sclust;
      } else {
        BoundaryIndex(fs.geo, fptr);
        ChainLink(Links(fs), chain, i - 1);
        clst := GetLink(fs, clust);
      }
    }

    /** The direct branch of f_read: as many whole sectors as the cluster holds. */
    method GetDirect(buff: array<Byte>, at: nat, btr: nat) returns (n: nat)
      requires Attached() && InCluster() && fptr % 512 == 0 && 512 <= btr && at + btr <= buff.Length && buff != fs.win
      modifies this`fptr, buff
      ensures Attached() && Cursor() && fs.Logical() == old(fs.Logical())
      ensures 0 < n <= btr && fptr == old(fptr) + n
      ensures buff[..] == Splice(old(buff[..]), at, buff[at..at + n])
      ensures Holds(fs.geo, fs.Logical(), chain, old(fptr), buff[at..at + n])
    {
      hide Sound, IsChain, InRange, Fat, Clust2Sect, Fits, SectAt, ClusterIndex, Clip, Holds, RunBytes;
      ValidIsSound(fs);
      SoundCsize(fs.geo, |fs.disk|);
      hide FatFs.Valid, FatFs.Logical;
      RemainderBelow(fptr / 512, fs.geo.csize);
      CurrentSector(fs.geo, chain, fptr);
      var csect := fptr / 512 % fs.geo.csize;
      var sect := Clust2Sect(fs.geo, clust) + csect;
      var cc := Clip(btr, csect, fs.geo.csize);
      n := 512 * cc;
      DirectBytes(fs.geo, fs.Logical(), chain, fptr, cc);
      ReadRun(fs, sect, cc, buff, at);
      Arith.DivUnique(fptr + n, 512, fptr / 512 + cc, 0);
      fptr := fptr + n;
    }

    /** The window branch of f_read. */
    method GetPart(buff: array<Byte>, at: nat, btr: nat) returns (n: nat)
      requires Attached() && InCluster() && 0 < btr && at + btr <= buff.Length && buff != fs.win
      requires InSector()
      modifies this`fptr, fs`disk, fs`winsect, fs`wflag, fs.win, buff
      ensures Attached() && Cursor() && fs.Logical() == old(fs.Logical())
      ensures 0 < n <= btr && fptr == old(fptr) + n
      ensures buff[..] == Splice(old(buff[..]), at, buff[at..at + n])
      ensures Holds(fs.geo, fs.Logical(), chain, old(fptr), buff[at..at + n])
    {
      hide Sound, IsChain, InRange, Fat, Clust2Sect, Fits, SectAt, ClusterIndex, Holds;
      ValidIsSound(fs);
      SoundCsize(fs.geo, |fs.disk|);
      n := 512 - fptr % 512;
      if n > btr {
        n := btr;
      }
      PartBytes(fs.geo, fs.Logical(), chain, fptr, n);
      ReadPart(fs, dsect, fptr % 512, n, buff, at);
      fptr := fptr + n;
    }

    /** One round of f_read's loop. */
    method ReadChunk(buff: array<Byte>, at: nat, btr: nat) returns (n: nat)
      requires Valid() && 0 < btr <= fsize - fptr && at + btr <= buff.Length && buff != fs.win
      modifies this`clust, this`dsect, this`fptr, fs`disk, fs`winsect, fs`wflag, fs.win, buff
      ensures Valid() && fs.Logical() == old(fs.Logical())
      ensures 0 < n <= btr && fptr == old(fptr) + n
      ensures buff[..] == Splice(old(buff[..]), at, buff[at..at + n])
      ensures Holds(fs.geo, fs.Logical(), chain, old(fptr), buff[at..at + n])
    {
      hide Sound, InRange, IsChain, Fat, SectAt, ClusterIndex, Holds, Fits;
      ValidIsSound(fs);
      SoundCsize(fs.geo, |fs.disk|);
      FitsBelow(fs.geo, chain, fsize, fptr);
      var csect := fptr / 512 % fs.geo.csize;
      if fptr % 512 == 0 && csect == 0 {
        clust := ClusterForRead();
      } else {
        ZeroIsBoundary(fs.geo, fptr);
        InnerIndex(fs.geo, fptr);
      }
      if fptr % 512 == 0 && btr / 512 != 0 {
        n := GetDirect(buff, at, btr);
      } else {
        if fptr % 512 == 0 {
          CurrentSector(fs.geo, chain, fptr);
          dsect := Clust2Sect(fs.geo, clust) + csect;
        }
        n := GetPart(buff, at, btr);
      }
    }

    /** The loop of f_read over bytes that are there. */
    method ReadLoop(buff: array<Byte>, rest: nat) returns (br: nat)
      requires Valid() && rest <= buff.Length && rest <= fsize - fptr && buff != fs.win
      modifies this`clust, this`dsect, this`fptr, fs`disk, fs`winsect, fs`wflag, fs.win, buff
      ensures Valid() && fs.Logical() == old(fs.Logical()) && br == rest && fptr == old(fptr) + br
      ensures buff[br..] == old(buff[br..]) && Holds(fs.geo, fs.Logical(), chain, old(fptr), buff[..br])
    {
      hide Sound, InRange, IsChain, Fat, SectAt, ClusterIndex, Holds, Fits, Splice;
      ValidIsSound(fs);
      hide FatFs.Valid, FatFs.Logical;
      ghost var p, d := fptr, fs.Logical();
      br := 0;
      HoldsNothing(fs.geo, d, chain, p);
      while br < rest
        invariant Valid() && fs.Logical() == d && fptr == p + br && br <= rest <= fsize - p
        invariant buff[br..] == old(buff[br..])
        invariant Holds(fs.geo, d, chain, p, buff[..br])
      {
        ghost var got := buff[..br];
        var n := ReadChunk(buff, br, rest - br);
        assert buff[..br] == got;
        HoldsBoth(fs.geo, d, chain, p, got, buff[br..br + n]);
        assert got + buff[br..br + n] == buff[..br + n];
        br := br + n;
      }
    }

    /**
     * f_read: exactly the bytes from the pointer on, up to the end of the file; nothing on the
     * logical disk, in the file or elsewhere in the buffer changes.
     */
    method Read(buff: array<Byte>, btr: nat) returns (br: nat, st: Status)
      requires Valid() && btr <= buff.Length && buff != fs.win
      modifies this`clust, this`dsect, this`fptr, fs`disk, fs`winsect, fs`wflag, fs.win, buff
      ensures Valid() && fs.Logical() == old(fs.Logical())
      ensures st == if error then IntErr else if !canRead then Denied else Ok
      ensures st != Ok ==> br == 0 && buff[..] == old(buff[..]) && fptr == old(fptr)
      ensures st == Ok ==> br == (if btr < fsize - old(fptr) then btr else fsize - old(fptr))
      ensures st == Ok ==> fptr == old(fptr) + br
      ensures st == Ok ==>
        && buff[br..] == old(buff[br..])
        && Holds(fs.geo, fs.Logical(), chain, old(fptr), buff[..br])
    {
      hide Sound, InRange, IsChain, Fat, SectAt, ClusterIndex, Holds, Fits, Splice;
      ValidIsSound(fs);
      hide FatFs.Valid, FatFs.Logical;
      br, st := 0, Ok;
      if error {
        return 0, IntErr;
      }
      if !canRead {
        return 0, Denied;
      }
      var rest := if btr > fsize - fptr then fsize - fptr else btr;
      br := ReadLoop(buff, rest);
    }

    /**
     * Where f_lseek starts walking for a target `ofs`: at the cluster of the old pointer `ifptr`
     * when the target is not before it, else at the first cluster. 0: no cluster, disk full.
     */
    method SeekStart(ofs: nat, ifptr: nat) returns (clst: nat, rest: nat)
      requires Attached() && !error && fptr == 0 && 0 < ofs
      requires ifptr > 0 ==> Fits(fs.geo, chain, ifptr)
      requires ifptr > 0 ==> ClusterIndex(fs.geo, ifptr - 1) < |chain| && clust == chain[ClusterIndex(fs.geo, ifptr - 1)]
      modifies this`sclust, this`clust, this`chain, this`error, this`fptr
      modifies fs`disk, fs`winsect, fs`wflag, fs`lastClust, fs`freeClust, fs`fsiFlag, fs.win
      ensures Attached() && OnlyFatChanged(fs.geo, old(fs.Logical()), fs.Logical())
      ensures Grew(old(Links(fs)), Links(fs), old(chain), chain)
      ensures error <==> clst == 1
      ensures clst < 2 ==> chain == [] && fptr == 0
      ensures clst == 0 ==> FreeCount(Links(fs)) == 0 && !HasOne(Links(fs))
      ensures clst == 1 ==> HasOne(Links(fs)) && sclust == old(sclust)
      ensures clst >= 2 ==> ClusterStart(fs.geo, fptr) && InCluster() && clst == clust
      ensures clst >= 2 ==> 0 < rest && fptr + rest == ofs
      ensures old(chain) != [] ==> clst >= 2 && chain == old(chain)
      ensures Follows(old(BooksOf(fs)), BooksOf(fs))
      ensures clst >= 2 ==> |chain| == Max(old(|chain|), ClusterIndex(fs.geo, fptr) + 1)
    {
      hide Sound, OnlyFatChanged, Grew, FreeCount, HasOne, InRange, IsChain, Fat, SectAt, ClusterIndex, ClusterStart;
      ValidIsSound(fs);
      SoundCsize(fs.geo, |fs.disk|);
      OnlyFatRefl(fs.geo, fs.Logical());
      GrewRefl(Links(fs), chain);
      var bcs := fs.geo.csize * 512;
      RoundDown(fs.geo, ofs - 1);
      if ifptr > 0 {
        RoundDown(fs.geo, ifptr - 1);
      }
      if ifptr > 0 && (ofs - 1) / bcs >= (ifptr - 1) / bcs {
        SeekForward(fs.geo, ofs, ifptr);
        FitsLess(fs.geo, chain, ifptr, (ifptr - 1) - (ifptr - 1) % bcs);
        fptr := (ifptr - 1) - (ifptr - 1) % bcs;
        rest := ofs - fptr;
        clst := clust;
        ChainLink(Links(fs), chain, ClusterIndex(fs.geo, fptr));
      } else {
        FirstIndex(fs.geo);
        ZeroIsStart(fs.geo);
        rest := ofs;
        clst := sclust;
        if clst == 0 {
          clst := FirstCluster();
          if clst == 1 {
            error := true;
            return;
          }
        } else {
          ChainLink(Links(fs), chain, 0);
        }
        clust := clst;
      }
    }

    /** One round of f_lseek's cluster-following loop; 0: the disk is full. */
    method SeekStep(from: nat, ghost rest: nat) returns (clst: nat)
      requires Attached() && !error && rest > fs.geo.csize * 512
      requires ClusterStart(fs.geo, fptr) && InCluster() && from == clust
      requires canWrite || Fits(fs.geo, chain, fptr + rest)
      modifies this`clust, this`chain, this`error, this`fptr
      modifies fs`disk, fs`winsect, fs`wflag, fs`lastClust, fs`freeClust, fs`fsiFlag, fs.win
      ensures Attached() && OnlyFatChanged(fs.geo, old(fs.Logical()), fs.Logical())
      ensures Grew(old(Links(fs)), Links(fs), old(chain), chain)
      ensures ClusterStart(fs.geo, fptr) && InCluster()
      ensures error <==> clst == 1
      ensures clst == 0 ==>
        canWrite && FreeCount(Links(fs)) == 0 && !HasOne(Links(fs)) && ClusterIndex(fs.geo, fptr) + 1 == |chain|
      ensures clst == 1 ==> HasOne(Links(fs)) && ClusterIndex(fs.geo, fptr) + 1 == |chain|
      ensures clst < 2 ==> fptr == old(fptr)
      ensures clst >= 2 ==> clst == clust && fptr == old(fptr) + fs.geo.csize * 512
      ensures !canWrite ==> clst >= 2 && chain == old(chain)
      ensures Follows(old(BooksOf(fs)), BooksOf(fs))
      ensures |chain| == Max(old(|chain|), ClusterIndex(fs.geo, fptr) + 1)
    {
      hide Sound, OnlyFatChanged, Grew, FreeCount, HasOne, InRange, IsChain, Fat, SectAt, ClusterIndex, ClusterStart, Fits;
      ValidIsSound(fs);
      SoundCsize(fs.geo, |fs.disk|);
      OnlyFatRefl(fs.geo, fs.Logical());
      GrewRefl(Links(fs), chain);
      ghost var l, t, i := Links(fs), chain, ClusterIndex(fs.geo, fptr);
      ChainLink(l, t, i);
      if canWrite {
        clst := NextCluster(from, i);
        GrewPrefix(l, Links(fs), t, chain);
        if clst == 0 {
          return;
        }
        if clst >= 2 {
          ChainLink(Links(fs), chain, i + 1);
        }
      } else {
        NextInFile(fs.geo, chain, fptr, rest);
        ChainLink(l, t, i + 1);
        clst := GetLink(fs, from);
      }
      if clst <= 1 || clst >= fs.geo.nFatent {
        error := true;
        return 1;
      }
      NextStart(fs.geo, fptr);
      StartFits(fs.geo, chain, fptr + fs.geo.csize * 512);
      clust := clst;
      fptr := fptr + fs.geo.csize * 512;
    }

    /** The cluster-following loop of f_lseek, from the start of the current cluster. */
    method SeekWalk(clst0: nat, rest0: nat) returns (clst: nat, rest: nat)
      requires Attached() && !error && 0 < rest0
      requires ClusterStart(fs.geo, fptr) && InCluster() && clst0 == clust
      requires canWrite || Fits(fs.geo, chain, fptr + rest0)
      modifies this`clust, this`chain, this`error, this`fptr
      modifies fs`disk, fs`winsect, fs`wflag, fs`lastClust, fs`freeClust, fs`fsiFlag, fs.win
      ensures Attached() && OnlyFatChanged(fs.geo, old(fs.Logical()), fs.Logical())
      ensures Grew(old(Links(fs)), Links(fs), old(chain), chain)
      ensures ClusterStart(fs.geo, fptr) && InCluster()
      ensures error <==> clst == 1
      ensures clst == 1 ==> HasOne(Links(fs)) && ChainBytes(fs.geo, chain) < old(fptr) + rest0
      ensures !error ==> 0 < rest <= fs.geo.csize * 512
      ensures clst >= 2 ==> clst == clust && fptr + rest == old(fptr) + rest0
      ensures clst == 0 ==>
        && canWrite && FreeCount(Links(fs)) == 0 && !HasOne(Links(fs)) && ClusterIndex(fs.geo, fptr) + 1 == |chain|
        && rest == fs.geo.csize * 512 && fptr + rest < old(fptr) + rest0
      ensures !canWrite ==> clst >= 2 && chain == old(chain)
      ensures Follows(old(BooksOf(fs)), BooksOf(fs))
      ensures fptr >= old(fptr) && |chain| == Max(old(|chain|), ClusterIndex(fs.geo, fptr) + 1)
    {
      hide Sound, OnlyFatChanged, Grew, FreeCount, HasOne, InRange, IsChain, Fat, SectAt, ClusterIndex, ClusterStart, Fits;
      ValidIsSound(fs);
      SoundCsize(fs.geo, |fs.disk|);
      OnlyFatRefl(fs.geo, fs.Logical());
      GrewRefl(Links(fs), chain);
      ghost var d, f, s := fs.Logical(), Links(fs), chain;
      ChainLink(f, s, ClusterIndex(fs.geo, fptr));
      hide FatFs.Valid, FatFs.Logical, BooksOf;
      clst, rest := clst0, rest0;
      var bcs := fs.geo.csize * 512;
      while rest > bcs
        invariant Attached() && !error && OnlyFatChanged(fs.geo, d, fs.Logical()) && Grew(f, Links(fs), s, chain)
        invariant ClusterStart(fs.geo, fptr) && InCluster() && clst == clust && 2 <= clst
        invariant fptr >= old(fptr)
        invariant 0 < rest && fptr + rest == old(fptr) + rest0
        invariant !canWrite ==> chain == s
        invariant Follows(old(BooksOf(fs)), BooksOf(fs)) && |chain| == Max(|s|, ClusterIndex(fs.geo, fptr) + 1)
        decreases rest
      {
        ghost var e, l, t := fs.Logical(), Links(fs), chain;
        ghost var p := fptr;
        clst := SeekStep(clst, rest);
        NextStart(fs.geo, p);
        OnlyFatTrans(fs.geo, d, e, fs.Logical());
        ChainTrans(f, l, Links(fs), s, t, chain);
        if clst == 0 {
          rest := bcs;
          break;
        }
        if clst == 1 {
          EndPosition(fs.geo, chain, fptr, bcs);
          return;
        }
        rest := rest - bcs;
      }
    }

    /** The end of f_lseek: rest bytes into the cluster, and the sector when that is not on a border. */
    method SeekEnd(clst: nat, rest: nat) returns (nsect: nat)
      requires Attached() && ClusterStart(fs.geo, fptr) && InCluster()
      requires 0 < rest <= fs.geo.csize * 512
      requires (2 <= clst && clst == clust) || (clst == 0 && rest == fs.geo.csize * 512)
      modifies this`fptr
      ensures Attached() && fptr == old(fptr) + rest
      ensures ClusterIndex(fs.geo, fptr - 1) == old(ClusterIndex(fs.geo, fptr))
      ensures fptr % 512 != 0 ==>
        ClusterIndex(fs.geo, fptr) < |chain| && nsect == SectAt(fs.geo, chain, fptr / 512)
      ensures clst == 0 && ClusterIndex(fs.geo, old(fptr)) + 1 == |chain| ==>
        fptr == ChainBytes(fs.geo, chain)
    {
      hide Sound, InRange, IsChain, Fat, Clust2Sect, ClusterIndex, ClusterStart, SectAt, Fits;
      ValidIsSound(fs);
      SoundCsize(fs.geo, |fs.disk|);
      hide FatFs.Valid, FatFs.Logical;
      EndPosition(fs.geo, chain, fptr, rest);
      nsect := 0;
      fptr := fptr + rest;
      if rest % 512 != 0 {
        nsect := Clust2Sect(fs.geo, clst);
        nsect := nsect + rest / 512;
      }
    }

    /** The body of f_lseek for a target other than 0; returns the sector of the new position. */
    method SeekTo(ofs: nat, ifptr: nat) returns (nsect: nat)
      requires Attached() && !error && fptr == 0 && 0 < ofs
      requires ifptr > 0 ==> Fits(fs.geo, chain, ifptr)
      requires ifptr > 0 ==> ClusterIndex(fs.geo, ifptr - 1) < |chain| && clust == chain[ClusterIndex(fs.geo, ifptr - 1)]
      requires canWrite || Fits(fs.geo, chain, ofs)
      modifies this`sclust, this`clust, this`chain, this`error, this`fptr
      modifies fs`disk, fs`winsect, fs`wflag, fs`lastClust, fs`freeClust, fs`fsiFlag, fs.win
      ensures fs.Valid() && OnlyFatChanged(fs.geo, old(fs.Logical()), fs.Logical())
      ensures Grew(old(Links(fs)), Links(fs), old(chain), chain)
      ensures !error ==> Sought(nsect)
      ensures !error && !canWrite ==> fptr == ofs
      ensures !error && fptr != ofs ==>
        fptr < ofs && fptr == ChainBytes(fs.geo, chain) && FreeCount(Links(fs)) == 0 && !HasOne(old(Links(fs)))
      ensures error ==> HasOne(old(Links(fs))) && ChainBytes(fs.geo, chain) < ofs
      ensures !canWrite ==> !error && chain == old(chain)
      ensures Follows(old(BooksOf(fs)), BooksOf(fs))
      ensures !error ==> |chain| == Max(old(|chain|), ClustersFor(fptr))
    {
      hide Sound, OnlyFatChanged, Grew, FreeCount, HasOne, BooksOf, InRange, IsChain, Fat, SectAt, ClusterIndex, ClusterStart;
      ValidIsSound(fs);
      SoundCsize(fs.geo, |fs.disk|);
      ghost var d, f, s := fs.Logical(), Links(fs), chain;
      nsect := 0;
      var clst, rest := SeekStart(ofs, ifptr);
      hide FatFs.Valid, FatFs.Logical, Fits;
      ChainOrNone(f, s);
      NoBytes(fs.geo);
      GrewKeepsOnes(f, Links(fs), s, chain);
      if clst >= 2 {
        ghost var e, l, t := fs.Logical(), Links(fs), chain;
        ghost var p := fptr;
        clst, rest := SeekWalk(clst, rest);
        IndexMono(fs.geo, p, fptr);
        OnlyFatTrans(fs.geo, d, e, fs.Logical());
        ChainTrans(f, l, Links(fs), s, t, chain);
        GrewKeepsOnes(f, Links(fs), s, chain);
        if clst != 1 {
          nsect := SeekEnd(clst, rest);
        }
      }
    }

    /** The cursor f_lseek has computed, before dsect and the size are brought up to date. */
    ghost predicate Sought(nsect: nat)
      reads this, fs, fs.win
    {
      && Attached()
      && (fptr > 0 ==> clust == chain[ClusterIndex(fs.geo, fptr - 1)])
      && (fptr % 512 != 0 ==>
            ClusterIndex(fs.geo, fptr) < |chain| && nsect == SectAt(fs.geo, chain, fptr / 512))
    }

    method SeekFinish(nsect: nat)
      requires Sought(nsect) && fsize < 0x1_0000_0000 && fptr < 0x1_0000_0000
      modifies this`dsect, this`fsize, this`written
      ensures Valid() && fsize == Max(old(fsize), fptr)
      ensures written == (old(written) || fptr > old(fsize))
    {
      hide Sound, InRange, IsChain, Fat, SectAt, ClusterIndex, Fits, FatFs.Valid, FatFs.Logical;
      if fptr % 512 != 0 && nsect != dsect {
        dsect := nsect;
      }
      if fptr > fsize {
        fsize := fptr;
        written := true;
      }
    }

    /** The pointer and the cluster moved to ofs. */
    method SeekMove(ofs: Dword) returns (nsect: nat)
      requires Valid() && !error && (canWrite || ofs <= fsize)
      modifies this`sclust, this`clust, this`chain, this`error, this`fptr
      modifies fs`disk, fs`winsect, fs`wflag, fs`lastClust, fs`freeClust, fs`fsiFlag, fs.win
      ensures fs.Valid() && OnlyFatChanged(fs.geo, old(fs.Logical()), fs.Logical())
      ensures Grew(old(Links(fs)), Links(fs), old(chain), chain)
      ensures !error ==> Sought(nsect) && fptr <= ofs && (!canWrite ==> fptr == ofs)
      ensures !error && fptr != ofs ==> fptr == ChainBytes(fs.geo, chain) && FreeCount(Links(fs)) == 0 && !HasOne(old(Links(fs)))
      ensures error ==> HasOne(old(Links(fs))) && ChainBytes(fs.geo, chain) < ofs
      ensures !canWrite ==> !error && chain == old(chain)
      ensures Follows(old(BooksOf(fs)), BooksOf(fs))
      ensures !error ==> |chain| == Max(old(|chain|), ClustersFor(fptr))
    {
      hide Sound, OnlyFatChanged, Grew, FreeCount, HasOne, BooksOf, InRange, IsChain, Fat, SectAt, ClusterIndex, Fits, ChainBytes;
      ValidIsSound(fs);
      SoundCsize(fs.geo, |fs.disk|);
      OnlyFatRefl(fs.geo, fs.Logical());
      GrewRefl(Links(fs), chain);
      hide FatFs.Valid, FatFs.Logical;
      var ifptr := fptr;
      nsect := 0;
      FitsLess(fs.geo, chain, fptr, 0);
      FitsLess(fs.geo, chain, fsize, if canWrite then 0 else ofs);
      if ifptr > 0 {
        FitsBelow(fs.geo, chain, ifptr, ifptr - 1);
      }
      fptr := 0;
      if ofs != 0 {
        nsect := SeekTo(ofs, ifptr);
      }
    }

    /** f_lseek on a file without error. */
    method Seek(target: Dword) returns (st: Status)
      requires Valid() && !error
      modifies this`sclust, this`clust, this`chain, this`error, this`written, this`dsect, this`fptr, this`fsize
      modifies fs`disk, fs`winsect, fs`wflag, fs`lastClust, fs`freeClust, fs`fsiFlag, fs.win
      ensures fs.Valid() && OnlyFatChanged(fs.geo, old(fs.Logical()), fs.Logical())
      ensures Grew(old(Links(fs)), Links(fs), old(chain), chain)
      ensures st == if error then IntErr else Ok
      ensures st == Ok ==> Valid() && fsize == Max(old(fsize), fptr)
      ensures st == Ok && !canWrite ==>
        fptr == (if target < old(fsize) then target else old(fsize)) && chain == old(chain)
      ensures st == Ok && canWrite && fptr != target ==>
        fptr < target && fptr == ChainBytes(fs.geo, chain) && FreeCount(Links(fs)) == 0 && !HasOne(old(Links(fs)))
      ensures st == IntErr ==>
        canWrite && HasOne(old(Links(fs))) && ChainBytes(fs.geo, chain) < target
      ensures !canWrite ==> st == Ok
      ensures Follows(old(BooksOf(fs)), BooksOf(fs))
      ensures st == Ok ==> |chain| == Max(old(|chain|), ClustersFor(fptr))
      ensures written == (old(written) || (st == Ok && fsize > old(fsize)))
    {
      hide Sound, OnlyFatChanged, Grew, FreeCount, HasOne, BooksOf, InRange, IsChain, Fat, SectAt, ClusterIndex, Fits, ChainBytes, Sought;
      st := Ok;
      var ofs := if target > fsize && !canWrite then fsize else target;
      var nsect := SeekMove(ofs);
      if error {
        return IntErr;
      }
      hide FatFs.Valid, FatFs.Logical;
      SeekFinish(nsect);
    }

    /**
     * f_lseek. The cursor ends at the target, clipped to the file size when the file is open for
     * reading only, and at the end of the last cluster that could be had when the disk is full. It
     * fails only on a writable file whose clusters end before the target, and only when some cluster
     * holds the link 1.
     * Nothing but links of free clusters changes, so the old bytes of every file stay.
     */
    method Lseek(target: Dword) returns (st: Status)
      requires Valid()
      modifies this`sclust, this`clust, this`chain, this`error, this`written, this`dsect, this`fptr, this`fsize
      modifies fs`disk, fs`winsect, fs`wflag, fs`lastClust, fs`freeClust, fs`fsiFlag, fs.win
      ensures fs.Valid() && OnlyFatChanged(fs.geo, old(fs.Logical()), fs.Logical())
      ensures Grew(old(Links(fs)), Links(fs), old(chain), chain)
      ensures st == if error then IntErr else Ok
      ensures old(error) ==> Valid() && fptr == old(fptr) && fsize == old(fsize) && chain == old(chain)
      ensures st == Ok ==> Valid() && fsize == Max(old(fsize), fptr)
      ensures st == Ok && !canWrite ==>
        fptr == (if target < old(fsize) then target else old(fsize)) && chain == old(chain)
      ensures st == Ok && canWrite && fptr != target ==>
        fptr < target && fptr == ChainBytes(fs.geo, chain) && FreeCount(Links(fs)) == 0 && !HasOne(old(Links(fs)))
      ensures st == IntErr && !old(error) ==>
        canWrite && HasOne(old(Links(fs))) && ChainBytes(fs.geo, chain) < target
      ensures !canWrite && !old(error) ==> st == Ok
      ensures Follows(old(BooksOf(fs)), BooksOf(fs))
      ensures st == Ok ==> |chain| == Max(old(|chain|), ClustersFor(fptr))
      ensures written == (old(written) || (st == Ok && fsize > old(fsize)))
    {
      hide Sound, OnlyFatChanged, Grew, FreeCount, HasOne, BooksOf, InRange, IsChain, Fat, Fits, ChainBytes;
      if error {
        OnlyFatRefl(fs.geo, fs.Logical());
        GrewRefl(Links(fs), chain);
        return IntErr;
      }
      st := Seek(target);
    }

    /** The chain holds at least the bytes before the pointer. */
    lemma LongEnough()
      requires Attached() && 0 < fs.geo.csize
      ensures ClustersFor(fptr) <= |chain|
    {
      if fptr > 0 {
        FitsBelow(fs.geo, chain, fptr, fptr - 1);
      }
    }

    lemma MoreClusters(m: nat, n: nat)
      requires 0 < fs.geo.csize && m <= n
      ensures ClustersFor(m) <= ClustersFor(n)
    {
      if m > 0 {
        Arith.DivMono((m - 1) / 512, (n - 1) / 512, fs.geo.csize);
      }
    }

    /** Number of clusters that hold the first n bytes. */
    ghost function ClustersFor(n: nat): nat
      requires 0 < fs.geo.csize
    {
      if n == 0 then 0 else ClusterIndex(fs.geo, n - 1) + 1
    }

    /** f_truncate at the start of the file: the whole chain is freed. */
    method TruncateAll() returns (ok: bool)
      requires Attached() && chain != [] && fptr == 0 && fsize == 0
      modifies this`sclust, this`chain, fs`disk, fs`winsect, fs`wflag, fs`freeClust, fs`fsiFlag, fs.win
      ensures ok && Attached() && chain == []
      ensures OnlyFatChanged(fs.geo, old(fs.Logical()), fs.Logical())
      ensures Links(fs) == Freed(old(Links(fs)), old(chain))
      ensures Follows(old(BooksOf(fs)), BooksOf(fs))
    {
      hide Sound, OnlyFatChanged, FreeCount, IsChain, Fat, Freed, Removed;
      ghost var f := Links(fs);
      ChainLink(f, chain, 0);
      RemovedChain(f, chain);
      ok := RemoveChain(fs, sclust);
      sclust := 0;
      chain := [];
    }

    /** Ending the chain at the current cluster and freeing what follows it. */
    method CutTail(ncl: nat, ghost i: nat) returns (ok: bool)
      requires Attached() && i + 1 < |chain| && clust == chain[i] && ncl == chain[i + 1]
      requires Fits(fs.geo, chain[..i + 1], fsize) && Fits(fs.geo, chain[..i + 1], fptr)
      modifies this`chain, fs`disk, fs`winsect, fs`wflag, fs`freeClust, fs`fsiFlag, fs.win
      ensures ok && Attached() && chain == old(chain)[..i + 1]
      ensures OnlyFatChanged(fs.geo, old(fs.Logical()), fs.Logical())
      ensures Links(fs) == Cut(old(Links(fs)), old(chain), i + 1, EndMark(fs.geo.fsType))
      ensures Follows(old(BooksOf(fs)), BooksOf(fs))
    {
      hide Sound, OnlyFatChanged, FreeCount, IsChain, Fat, Freed, Removed, Fits, InRange;
      ValidIsSound(fs);
      EndMarkFits(fs.geo, |fs.disk|);
      ghost var f, s, d, eoc := Links(fs), chain, fs.Logical(), EndMark(fs.geo.fsType);
      ChainLink(f, s, i);
      FreeCountStore(f, clust, eoc);
      SetLink(fs, clust, 0x0FFFFFFF);
      ghost var e := fs.Logical();
      ChainRuns.TailRemoved(f, s, i + 1, eoc);
      PrefixIsChain(f, s, i + 1, eoc);
      PrefixInRange(fs.geo, s, i + 1);
      ChainLink(f, s, i + 1);
      hide FatFs.Valid, FatFs.Logical;
      ok := RemoveChain(fs, ncl);
      OnlyFatTrans(fs.geo, d, e, fs.Logical());
      chain := s[..i + 1];
    }

    /** f_truncate further on: the chain is ended at the current cluster and its rest freed. */
    method TruncateRest(ghost i: nat) returns (ok: bool)
      requires Attached() && i < |chain| && clust == chain[i]
      requires Fits(fs.geo, chain[..i + 1], fsize) && Fits(fs.geo, chain[..i + 1], fptr)
      modifies this`chain, fs`disk, fs`winsect, fs`wflag, fs`freeClust, fs`fsiFlag, fs.win
      ensures ok && Attached() && chain == old(chain)[..i + 1]
      ensures OnlyFatChanged(fs.geo, old(fs.Logical()), fs.Logical())
      ensures Links(fs) == Cut(old(Links(fs)), old(chain), i + 1, EndMark(fs.geo.fsType))
      ensures Follows(old(BooksOf(fs)), BooksOf(fs))
    {
      hide Sound, OnlyFatChanged, FreeCount, IsChain, Fat, Freed, Fits, InRange;
      ValidIsSound(fs);
      OnlyFatRefl(fs.geo, fs.Logical());
      ChainLink(Links(fs), chain, i);
      if i + 1 < |chain| {
        ChainLink(Links(fs), chain, i + 1);
      }
      var ncl := GetLink(fs, clust);
      ok := ncl != 1;
      assert i + 1 == |chain| ==> chain[..i + 1] == chain;
      if ok && ncl < fs.geo.nFatent {
        ok := CutTail(ncl, i);
      }
    }

    /**
     * f_truncate. The size becomes the pointer when it was larger, the file keeps exactly the
     * clusters that hold its new size, and the others are free; no data sector changes.
     */
    method Truncate() returns (st: Status)
      requires Valid()
      modifies this`sclust, this`chain, this`written, this`fsize
      modifies fs`disk, fs`winsect, fs`wflag, fs`freeClust, fs`fsiFlag, fs.win
      ensures Valid() && OnlyFatChanged(fs.geo, old(fs.Logical()), fs.Logical())
      ensures st == if error then IntErr else if !canWrite then Denied else Ok
      ensures st != Ok || fptr == old(fsize) ==>
        fsize == old(fsize) && chain == old(chain) && Links(fs) == old(Links(fs))
      ensures st == Ok && fptr < old(fsize) ==>
        && fsize == fptr && |chain| == ClustersFor(fptr) <= |old(chain)|
        && chain == old(chain)[..ClustersFor(fptr)]
        && Links(fs) == Cut(old(Links(fs)), old(chain), ClustersFor(fptr), EndMark(fs.geo.fsType))
      ensures Follows(old(BooksOf(fs)), BooksOf(fs))
      ensures written == (old(written) || (st == Ok && fptr < old(fsize)))
    {
      hide Sound, OnlyFatChanged, FreeCount, IsChain, Fat, Freed, Fits, ClusterIndex, SectAt, Cut;
      ValidIsSound(fs);
      SoundCsize(fs.geo, |fs.disk|);
      OnlyFatRefl(fs.geo, fs.Logical());
      if error {
        return IntErr;
      }
      if !canWrite {
        return Denied;
      }
      st := Ok;
      if fsize > fptr {
        FitsLess(fs.geo, chain, fsize, fptr);
        FitsBelow(fs.geo, chain, fsize, fsize - 1);
        CutAll(Links(fs), chain, EndMark(fs.geo.fsType));
        fsize := fptr;
        written := true;
        var ok;
        if fptr == 0 {
          ok := TruncateAll();
        } else {
          FitsBelow(fs.geo, chain, fptr, fptr - 1);
          PrefixFits(fs.geo, chain, fptr);
          ok := TruncateRest(ClusterIndex(fs.geo, fptr - 1));
        }
      }
    }
  }

  lemma PrefixInRange(g: Geo, s: seq<nat>, k: nat)
    requires InRange(g, s) && k <= |s|
    ensures InRange(g, s[..k])
  {
    forall c | c in s[..k]
      ensures c in s
    {
      var i :| 0 <= i < k && s[..k][i] == c;
      assert s[i] == c;
    }
  }

  /** The clusters up to that of byte n - 1 hold n bytes, and the cursor facts about n survive. */
  lemma PrefixFits(g: Geo, s: seq<nat>, n: nat)
    requires 0 < g.csize && 0 < n && ClusterIndex(g, n - 1) < |s|
    ensures Fits(g, s[..ClusterIndex(g, n - 1) + 1], n)
    ensures n % 512 != 0 ==> ClusterIndex(g, n) == ClusterIndex(g, n - 1)
    ensures n % 512 != 0 ==>
      SectAt(g, s[..ClusterIndex(g, n - 1) + 1], n / 512) == SectAt(g, s, n / 512)
  {
    if n % 512 != 0 {
      InnerIndex(g, n);
    }
  }

  /**
   * The links after ending chain s behind its first k clusters and freeing the others; a chain
   * that is no longer than k keeps the end mark it has.
   */
  ghost function Cut(f: seq<nat>, s: seq<nat>, k: nat, eoc: nat): seq<nat> {
    if k == 0 then Freed(f, s)
    else if k < |s| && s[k - 1] < |f| then Freed(f[s[k - 1] := eoc], s[k..])
    else f
  }

  lemma CutAll(f: seq<nat>, s: seq<nat>, eoc: nat)
    ensures Cut(f, s, 0, eoc) == Freed(f, s)
  {
  }

  /** Cutting keeps a family of disjoint chains: s is replaced by its prefix, or vanishes. */
  lemma CutKeepsFamily(f: seq<nat>, cs: set<seq<nat>>, s: seq<nat>, k: nat, eoc: nat)
    requires Partition(f, cs) && s in cs && k <= |s| && eoc >= |f|
    ensures Partition(Cut(f, s, k, eoc), if k == 0 then cs - {s} else cs - {s} + {s[..k]})
  {
    hide Partition, IsChain, Freed;
    MemberIsChain(f, cs, s);
    ChainRange(f, s);
    if k == 0 {
      DropChain(f, cs, s);
    } else if k < |s| {
      ChainLink(f, s, k - 1);
      CutChain(f, cs, s, k, eoc);
    } else {
      assert s[..k] == s;
      assert cs - {s} + {s} == cs;
    }
  }

  /** The bytes the clusters of a chain hold. */
  function ChainBytes(g: Geo, ch: seq<nat>): nat {
    |ch| * (g.csize * 512)
  }

  lemma ZeroIsStart(g: Geo)
    requires 0 < g.csize
    ensures ClusterStart(g, 0)
  {
    Arith.DivUnique(0, g.csize, 0, 0);
  }

  /** r bytes behind the start of cluster p / (csize * 512) of the chain. */
  lemma EndPosition(g: Geo, ch: seq<nat>, p: nat, r: nat)
    requires 0 < g.csize && ClusterStart(g, p) && 0 < r <= g.csize * 512 && ClusterIndex(g, p) < |ch|
    ensures ClusterIndex(g, p + r - 1) == ClusterIndex(g, p) && Fits(g, ch, p + r)
    ensures (p + r) % 512 == r % 512
    ensures r % 512 != 0 ==> ClusterIndex(g, p + r) < |ch|
    ensures r % 512 != 0 ==> SectAt(g, ch, (p + r) / 512) == Clust2Sect(g, ch[ClusterIndex(g, p)]) + r / 512
    ensures r == g.csize * 512 ==> r % 512 == 0 && p + r == (ClusterIndex(g, p) + 1) * (g.csize * 512)
  {
    hide Clust2Sect;
    IntoCluster(g, p, r);
    if r == g.csize * 512 {
      NextStart(g, p);
      StartIsMultiple(g, p + r);
      Arith.DivUnique(r, 512, g.csize, 0);
    }
  }

  lemma IndexMono(g: Geo, p: nat, q: nat)
    requires 0 < g.csize && p <= q
    ensures ClusterIndex(g, p) <= ClusterIndex(g, q)
  {
    Arith.DivMono(p / 512, q / 512, g.csize);
  }

  lemma NoBytes(g: Geo)
    ensures ChainBytes(g, []) == 0
  {
  }

  /** At a cluster boundary the pointer stands at the end of the chain when its last byte is in the last cluster. */
  lemma FilledChain(g: Geo, ch: seq<nat>, p: nat)
    requires 0 < g.csize && 0 < p && ClusterStart(g, p)
    ensures ClusterIndex(g, p - 1) + 1 == |ch| ==> p == ChainBytes(g, ch)
  {
    BoundaryIndex(g, p);
    StartIsMultiple(g, p);
  }

  /** A target whose cluster is not before that of the pointer lies behind the start of the latter. */
  lemma SeekForward(g: Geo, ofs: nat, ifptr: nat)
    requires 0 < g.csize && 0 < ofs && 0 < ifptr
    requires (ofs - 1) / (g.csize * 512) >= (ifptr - 1) / (g.csize * 512)
    ensures (ifptr - 1) - (ifptr - 1) % (g.csize * 512) < ofs
  {
    var b := g.csize * 512;
    Arith.DivMod(ofs - 1, b);
    Arith.DivMod(ifptr - 1, b);
    Arith.MulMono((ifptr - 1) / b, (ofs - 1) / b, b);
  }

  /** A file that reaches beyond the current cluster has a next one. */
  lemma NextInFile(g: Geo, ch: seq<nat>, p: nat, rest: nat)
    requires 0 < g.csize && ClusterStart(g, p) && Fits(g, ch, p + rest) && rest > g.csize * 512
    ensures ClusterIndex(g, p) + 1 < |ch|
  {
    NextStart(g, p);
    FitsBelow(g, ch, p + rest, p + g.csize * 512);
  }

  /** A chain that has the cluster starting at p reaches up to p. */
  lemma StartFits(g: Geo, ch: seq<nat>, p: nat)
    requires 0 < g.csize && ClusterStart(g, p)
    ensures ClusterIndex(g, p) < |ch| ==> Fits(g, ch, p)
  {
    if p > 0 && ClusterIndex(g, p) < |ch| {
      Arith.DivMono((p - 1) / 512, p / 512, g.csize);
    }
  }

  function Max(a: nat, b: nat): nat {
    if a < b then b else a
  }

  /** Growing twice. */
  lemma ChainTrans(f0: seq<nat>, f1: seq<nat>, f2: seq<nat>, s0: seq<nat>, s1: seq<nat>, s2: seq<nat>)
    requires Grew(f0, f1, s0, s1) && Grew(f1, f2, s1, s2)
    ensures Grew(f0, f2, s0, s2)
  {
    if s2 != [] {
      ChainRange(f2, s2);
    }
    GrewTrans(f0, f1, f2, s0, s1, s2);
  }

  /** Number of whole sectors in n bytes, clipped at the cluster boundary. */
  function Clip(n: nat, csect: nat, csize: nat): (cc: nat)
    requires 512 <= n && csect < csize
    ensures 0 < cc && csect + cc <= csize && 512 * cc <= n
  {
    if csect + n / 512 > csize then csize - csect else n / 512
  }

  lemma GrewPrefix(f: seq<nat>, f': seq<nat>, s: seq<nat>, s': seq<nat>)
    requires Grew(f, f', s, s')
    ensures |s| <= |s'| && s == s'[..|s|]
    ensures forall c :: c in s ==> c in s'
  {
    assert s' == s + s'[|s|..];
  }

  /** The sector that f_read and f_write compute from the current cluster. */
  lemma CurrentSector(g: Geo, ch: seq<nat>, p: nat)
    requires 0 < g.csize && ClusterIndex(g, p) < |ch|
    ensures Clust2Sect(g, ch[ClusterIndex(g, p)]) + p / 512 % g.csize == SectAt(g, ch, p / 512)
  {
  }

  /** The new chain is one, on the new links. */
  lemma GrewIsChain(f: seq<nat>, f': seq<nat>, s: seq<nat>, s': seq<nat>)
    requires Grew(f, f', s, s') && s' != []
    ensures IsChain(f', s')
  {
  }

  /** Reading the outcome of a scan. */
  lemma ScanOutcome(f: seq<nat>, scl: nat, r: nat)
    requires |f| >= 2
    ensures ScanFinds(f, scl, r) && r == 0 ==> FreeCount(f) == 0 && !HasOne(f)
    ensures ScanFinds(f, scl, r) && r == 1 ==> HasOne(f)
    ensures ScanFinds(f, scl, r) && r >= 2 ==> 2 <= r < |f| && f[r] == 0
  {
    if ScanFinds(f, scl, r) {
      ScanFailsOnlyWhenFull(f, scl, r);
    }
  }

  lemma ChainOrNone(f: seq<nat>, s: seq<nat>)
    requires s != [] ==> IsChain(f, s)
    ensures s == [] || IsChain(f, s)
  {
  }

  /** A longer chain of valid clusters holds at least as much. */
  lemma Longer(g: Geo, s: seq<nat>, t: seq<nat>, m: nat, n: nat)
    requires 0 < g.csize && InRange(g, s) && |t| == |s| + 1 && t[..|s|] == s && 2 <= t[|s|] < g.nFatent
    requires Fits(g, s, m) && Fits(g, s, n)
    ensures InRange(g, t) && Fits(g, t, m) && Fits(g, t, n)
  {
    assert t == s + [t[|s|]];
  }
}

/** The bytes of a file, seen through its cluster chain on the logical disk. */
module FileData {
  import opened Bytes
  import opened Geometry
  import opened Window
  import opened FatAccess
  import opened Chains
  import opened Allocator
  import Arith

  /** Position in the chain of the cluster that holds byte i. */
  function ClusterIndex(g: Geo, i: nat): nat
    requires 0 < g.csize
  {
    i / 512 / g.csize
  }

  /** Every cluster number of the chain is valid. */
  ghost predicate InRange(g: Geo, ch: seq<nat>) {
    forall c :: c in ch ==> 2 <= c < g.nFatent
  }

  /** The sector that holds sector k of the file. */
  ghost function SectAt(g: Geo, ch: seq<nat>, k: nat): nat
    requires 0 < g.csize && k / g.csize < |ch|
  {
    Clust2Sect(g, ch[k / g.csize]) + k % g.csize
  }

  /** n bytes fit into the clusters of the chain. */
  ghost predicate Fits(g: Geo, ch: seq<nat>, n: nat)
    requires 0 < g.csize
  {
    n > 0 ==> ClusterIndex(g, n - 1) < |ch|
  }

  /** Byte i of the file. */
  ghost function ByteAt(g: Geo, d: Disk, ch: seq<nat>, i: nat): Byte
    requires Sound(g, |d|) && InRange(g, ch) && ClusterIndex(g, i) < |ch|
  {
    SectAtInside(g, |d|, ch, i / 512);
    d[SectAt(g, ch, i / 512)][i % 512]
  }

  lemma SectAtInside(g: Geo, total: nat, ch: seq<nat>, k: nat)
    requires Sound(g, total) && InRange(g, ch) && k / g.csize < |ch|
    ensures g.database <= SectAt(g, ch, k) < total && !InFatArea(g, SectAt(g, ch, k))
    ensures ClusterOf(g, SectAt(g, ch, k)) == ch[k / g.csize]
  {
    Arith.DivMod(k, g.csize);
    assert ch[k / g.csize] in ch;
    ClusterSector(g, total, ch[k / g.csize], k % g.csize);
  }

  /** Different sectors of a file without repeated clusters are different sectors of the disk. */
  lemma SectAtInjective(g: Geo, total: nat, f: seq<nat>, ch: seq<nat>, k: nat, l: nat)
    requires Sound(g, total) && |f| == g.nFatent && IsChain(f, ch) && InRange(g, ch)
    requires k / g.csize < |ch| && l / g.csize < |ch|
    requires SectAt(g, ch, k) == SectAt(g, ch, l)
    ensures k == l
  {
    hide *;
    SoundCsize(g, total);
    var i, r := SectAtParts(g, ch, k);
    var j, q := SectAtParts(g, ch, l);
    SectorsDetermine(g, total, f, ch, i, r, j, q);
    Arith.SameQuotient(k, l, g.csize);
  }

  lemma SectAtParts(g: Geo, ch: seq<nat>, k: nat) returns (i: nat, r: nat)
    requires 0 < g.csize && k / g.csize < |ch|
    ensures i == k / g.csize && r == k % g.csize < g.csize
    ensures SectAt(g, ch, k) == Clust2Sect(g, ch[i]) + r
  {
    hide Clust2Sect;
    RemainderBelow(k, g.csize);
    i, r := k / g.csize, k % g.csize;
  }

  /** Position in the chain and offset in the cluster are determined by the disk sector. */
  lemma SectorsDetermine(g: Geo, total: nat, f: seq<nat>, ch: seq<nat>, i: nat, r: nat, j: nat, q: nat)
    requires Sound(g, total) && |f| == g.nFatent && IsChain(f, ch) && InRange(g, ch)
    requires i < |ch| && j < |ch| && r < g.csize && q < g.csize
    requires Clust2Sect(g, ch[i]) + r == Clust2Sect(g, ch[j]) + q
    ensures i == j && r == q
  {
    hide IsChain, Clust2Sect, Sound;
    assert ch[i] in ch && ch[j] in ch;
    ClustersDisjoint(g, total, ch[i], r, ch[j], q);
    if i < j {
      ChainDistinct(f, ch, i, j);
    }
    if j < i {
      ChainDistinct(f, ch, j, i);
    }
  }

  lemma RemainderBelow(k: nat, c: nat)
    requires 0 < c
    ensures k % c < c
  {
  }

  lemma SoundCsize(g: Geo, total: nat)
    requires Sound(g, total)
    ensures 1 <= g.csize <= 128 && 3 <= g.nFatent <= 0x0FFFFFF7
    ensures 1 <= g.fatbase && g.fatbase + FatArea(g) <= g.database
  {
  }

  lemma FitsBelow(g: Geo, ch: seq<nat>, n: nat, i: nat)
    requires 0 < g.csize && Fits(g, ch, n) && i < n
    ensures ClusterIndex(g, i) < |ch|
  {
    Arith.DivMono(i / 512, (n - 1) / 512, g.csize);
  }

  // ---------------------------------------------------------------- growing chains

  /** f' is f with the chain s grown to s' by free clusters; no other cluster is touched. */
  ghost predicate Grew(f: seq<nat>, f': seq<nat>, s: seq<nat>, s': seq<nat>) {
    && |f'| == |f| && |s| <= |s'| && s == s'[..|s|]
    && (s' != [] ==> IsChain(f', s'))
    && (forall c :: c in s' ==> c in s || f[c] == 0)
    && (forall c :: 2 <= c < |f| && c !in s' ==> f'[c] == f[c])
  }

  /** Growing keeps every family of disjoint chains, with s' in the place of s. */
  lemma GrewKeepsFamily(f: seq<nat>, f': seq<nat>, s: seq<nat>, s': seq<nat>, cs: set<seq<nat>>)
    requires Grew(f, f', s, s') && Partition(f, cs) && (s in cs || s == []) && s' != []
    requires s != [] || forall c :: c in s' ==> f[c] == 0
    ensures Partition(f', cs - {s} + {s'})
  {
    hide Partition, IsChain;
    if s == [] {
      EmptyIsNoMember(f, cs);
      assert cs - {s} == cs;
      AddToFamily(f, f', cs, s');
    } else {
      assert forall c :: c in s ==> c in s' by {
        assert s' == s + s'[|s|..];
      }
      ReplaceChain(f, f', cs, s, s');
    }
  }

  lemma EmptyIsNoMember(f: seq<nat>, cs: set<seq<nat>>)
    requires Partition(f, cs)
    ensures [] !in cs
  {
  }

  lemma GrewRefl(f: seq<nat>, s: seq<nat>)
    requires s == [] || IsChain(f, s)
    ensures Grew(f, f, s, s)
  {
  }

  /** Growing neither makes nor removes a link 1. */
  lemma GrewKeepsOnes(f: seq<nat>, f': seq<nat>, s: seq<nat>, s': seq<nat>)
    requires Grew(f, f', s, s') && (s == [] || IsChain(f, s))
    ensures HasOne(f) <==> HasOne(f')
  {
    forall c | c in s' && 2 <= c < |f|
      ensures f[c] != 1 && f'[c] != 1
    {
      ChainAllocated(f', s', c);
      if c in s {
        ChainAllocated(f, s, c);
      }
    }
    hide IsChain;
    if c :| 2 <= c < |f| && f[c] == 1 {
      assert f'[c] == 1;
    }
    if c :| 2 <= c < |f'| && f'[c] == 1 {
      assert f[c] == 1;
    }
  }

  lemma GrewTrans(f0: seq<nat>, f1: seq<nat>, f2: seq<nat>, s0: seq<nat>, s1: seq<nat>, s2: seq<nat>)
    requires Grew(f0, f1, s0, s1) && Grew(f1, f2, s1, s2)
    requires forall c :: c in s2 ==> 2 <= c < |f0|
    ensures Grew(f0, f2, s0, s2)
  {
    hide IsChain;
    assert s2[..|s0|] == s2[..|s1|][..|s0|];
    assert forall c :: c in s1 ==> c in s2 by {
      assert s2 == s1 + s2[|s1|..];
    }
    forall c | c in s2
      ensures c in s0 || f0[c] == 0
    {
      if c !in s1 {
        assert f1[c] == 0 && f1[c] == f0[c];
      }
    }
  }

  /** The first cluster of a file. */
  lemma GrowEmpty(f: seq<nat>, r: nat, eoc: nat)
    requires 2 <= r < |f| && f[r] == 0 && eoc >= |f|
    ensures Grew(f, Grown(f, 0, r, eoc), [], [r])
  {
  }

  /** A further cluster behind the last one. */
  lemma GrowLast(f: seq<nat>, s: seq<nat>, r: nat, eoc: nat)
    requires IsChain(f, s) && 2 <= r < |f| && f[r] == 0 && eoc >= |f|
    ensures 2 <= s[|s| - 1] < |f|
    ensures Grew(f, Grown(f, s[|s| - 1], r, eoc), s, s + [r])
  {
    hide IsChain;
    ChainRange(f, s);
    ChainLink(f, s, |s| - 1);
    StretchedIsChain(f, s, r, eoc);
    assert s == (s + [r])[..|s|];
    assert r in s + [r] && s[|s| - 1] in s + [r];
  }

  // ---------------------------------------------------------------- writing bytes

  /** Outside the FAT and the clusters of ch nothing differs, and the FAT copies stayed equal. */
  ghost predicate OnlyChainChanged(g: Geo, d: Disk, e: Disk, ch: seq<nat>) {
    && Sound(g, |d|) && |e| == |d|
    && (forall s: nat :: s < |d| && !InFatArea(g, s) && !(g.database <= s && ClusterOf(g, s) in ch) ==> e[s] == d[s])
    && (Mirrored(g, d) ==> Mirrored(g, e))
  }

  lemma OnlyChainTrans(g: Geo, d: Disk, e: Disk, f: Disk, s: seq<nat>, t: seq<nat>)
    requires OnlyChainChanged(g, d, e, s) && OnlyChainChanged(g, e, f, t)
    requires forall c :: c in s ==> c in t
    ensures OnlyChainChanged(g, d, f, t)
  {
  }

  lemma OnlyFatIsOnlyChain(g: Geo, d: Disk, e: Disk, s: seq<nat>)
    requires OnlyFatChanged(g, d, e)
    ensures OnlyChainChanged(g, d, e, s)
  {
  }

  /** No sector of the FAT copies differs, so neither do the links. */
  ghost predicate FatUntouched(g: Geo, d: Disk, e: Disk) {
    |e| == |d| && forall s: nat :: s < |d| && InFatArea(g, s) ==> e[s] == d[s]
  }

  lemma SameLinks(g: Geo, d: Disk, e: Disk)
    requires Sound(g, |d|) && FatUntouched(g, d, e)
    ensures |e| == |d| && Fat(g, e) == Fat(g, d)
  {
    hide FatByte, LdWord, LdDword, Value12;
    forall i: nat | i < g.fatSize * 512
      ensures FatByte(g, e, i) == FatByte(g, d, i)
    {
      FatByteSame(g, d, e, i);
    }
    forall c | 0 <= c < g.nFatent
      ensures Entry(g, e, c) == Entry(g, d, c)
    {
      EntryInsideFat(g, |d|, c);
    }
    assert Fat(g, e) == Fat(g, d);
  }

  lemma FatByteSame(g: Geo, d: Disk, e: Disk, i: nat)
    requires Sound(g, |d|) && FatUntouched(g, d, e) && i < g.fatSize * 512
    ensures g.fatbase + g.fatSize <= |d|
    ensures FatByte(g, e, i) == FatByte(g, d, i)
  {
    assert InFatArea(g, g.fatbase + i / 512);
  }

  /**
   * The file on (e, ch') is the file on (d, ch) with src written at byte `at`, as far as its first
   * `size` bytes and the written range are concerned.
   */
  ghost predicate BytesPut(g: Geo, d: Disk, ch: seq<nat>, e: Disk, ch': seq<nat>, at: nat, src: seq<Byte>, size: nat)
  {
    && Sound(g, |d|) && |e| == |d| && InRange(g, ch) && InRange(g, ch')
    && Fits(g, ch, size) && Fits(g, ch', size) && Fits(g, ch', at + |src|)
    && (forall i: nat :: at <= i < at + |src| ==> ClusterIndex(g, i) < |ch'| && ByteAt(g, e, ch', i) == src[i - at])
    && (forall i: nat :: i < size && !(at <= i < at + |src|) ==>
          ClusterIndex(g, i) < |ch| && ClusterIndex(g, i) < |ch'| && ByteAt(g, e, ch', i) == ByteAt(g, d, ch, i))
  }

  // ---------------------------------------------------------------- sectors to bytes

  /** d with whole sectors of data from sector s on. */
  function PutRun(d: Disk, s: nat, data: seq<Byte>): (e: Disk)
    requires |data| % 512 == 0 && s + |data| / 512 <= |d|
    ensures |e| == |d|
    ensures forall t :: 0 <= t < |d| && !(s <= t < s + |data| / 512) ==> e[t] == d[t]
  {
    seq(|d|, t requires 0 <= t < |d| =>
      if s <= t < s + |data| / 512 then data[(t - s) * 512..(t - s) * 512 + 512] else d[t])
  }

  /** Sectors of one cluster follow one another on the disk. */
  lemma SectAtRun(g: Geo, ch: seq<nat>, k: nat, j: nat)
    requires 0 < g.csize && k / g.csize < |ch| && k % g.csize + j < g.csize
    ensures (k + j) / g.csize == k / g.csize
    ensures SectAt(g, ch, k + j) == SectAt(g, ch, k) + j
  {
    Arith.DivInside(k, g.csize, j);
  }

  /** Where byte i falls relative to a run of cc sectors that starts with file sector k0. */
  lemma RunPosition(i: nat, k0: nat, cc: nat)
    ensures k0 <= i / 512 < k0 + cc <==> k0 * 512 <= i < (k0 + cc) * 512
    ensures k0 <= i / 512 ==> (i / 512 - k0) * 512 + i % 512 == i - k0 * 512
  {
  }

  /** A direct multi-sector transfer inside one cluster writes exactly its bytes of the file. */
  lemma RunByte(g: Geo, d: Disk, f: seq<nat>, ch: seq<nat>, k0: nat, data: seq<Byte>, i: nat)
    requires Sound(g, |d|) && |f| == g.nFatent && IsChain(f, ch) && InRange(g, ch)
    requires |data| % 512 == 0 && k0 / g.csize < |ch| && k0 % g.csize + |data| / 512 <= g.csize
    requires SectAt(g, ch, k0) + |data| / 512 <= |d|
    requires ClusterIndex(g, i) < |ch|
    ensures ByteAt(g, PutRun(d, SectAt(g, ch, k0), data), ch, i)
      == if k0 * 512 <= i < k0 * 512 + |data| then data[i - k0 * 512] else ByteAt(g, d, ch, i)
  {
    hide Sound, IsChain, InRange;
    SoundCsize(g, |d|);
    var cc, s := |data| / 512, SectAt(g, ch, k0);
    var k := i / 512;
    RunPosition(i, k0, cc);
    assert |data| == cc * 512;
    SectAtInside(g, |d|, ch, k);
    if k0 <= k < k0 + cc {
      SectAtRun(g, ch, k0, k - k0);
    } else if s <= SectAt(g, ch, k) < s + cc {
      var j := SectAt(g, ch, k) - s;
      SectAtRun(g, ch, k0, j);
      SectAtInjective(g, |d|, f, ch, k, k0 + j);
    }
  }

  lemma RunPut(g: Geo, d: Disk, f: seq<nat>, ch: seq<nat>, k0: nat, data: seq<Byte>, size: nat)
    requires Sound(g, |d|) && |f| == g.nFatent && IsChain(f, ch) && InRange(g, ch)
    requires |data| % 512 == 0 && 0 < |data| && k0 / g.csize < |ch| && k0 % g.csize + |data| / 512 <= g.csize
    requires Fits(g, ch, size)
    ensures SectAt(g, ch, k0) + |data| / 512 <= |d|
    ensures Fits(g, ch, k0 * 512 + |data|)
    ensures BytesPut(g, d, ch, PutRun(d, SectAt(g, ch, k0), data), ch, k0 * 512, data, size)
    ensures OnlyChainChanged(g, d, PutRun(d, SectAt(g, ch, k0), data), ch)
    ensures FatUntouched(g, d, PutRun(d, SectAt(g, ch, k0), data))
  {
    hide Sound, IsChain, InRange, ByteAt, PutRun, SectAt, ClusterIndex, OnlyChainChanged, FatUntouched;
    SoundCsize(g, |d|);
    RunInside(g, |d|, ch, k0, |data| / 512);
    RunEnd(g, ch, k0, |data|);
    var e := PutRun(d, SectAt(g, ch, k0), data);
    forall i: nat | k0 * 512 <= i < k0 * 512 + |data|
      ensures ClusterIndex(g, i) < |ch| && ByteAt(g, e, ch, i) == data[i - k0 * 512]
    {
      FitsBelow(g, ch, k0 * 512 + |data|, i);
      RunByte(g, d, f, ch, k0, data, i);
    }
    forall i: nat | i < size && !(k0 * 512 <= i < k0 * 512 + |data|)
      ensures ClusterIndex(g, i) < |ch| && ByteAt(g, e, ch, i) == ByteAt(g, d, ch, i)
    {
      FitsBelow(g, ch, size, i);
      RunByte(g, d, f, ch, k0, data, i);
    }
    RunOnlyChain(g, d, ch, k0, data);
  }

  lemma RunEnd(g: Geo, ch: seq<nat>, k0: nat, n: nat)
    requires 0 < g.csize && n % 512 == 0 && 0 < n && k0 / g.csize < |ch| && k0 % g.csize + n / 512 <= g.csize
    ensures Fits(g, ch, k0 * 512 + n)
    ensures ClusterIndex(g, k0 * 512 + n - 1) == k0 / g.csize
  {
    Arith.DivInside(k0, g.csize, n / 512 - 1);
    Arith.DivUnique(k0 * 512 + n - 1, 512, k0 + n / 512 - 1, 511);
  }

  lemma RunInside(g: Geo, total: nat, ch: seq<nat>, k0: nat, cc: nat)
    requires Sound(g, total) && InRange(g, ch) && k0 / g.csize < |ch| && k0 % g.csize + cc <= g.csize && 0 < cc
    ensures g.database <= SectAt(g, ch, k0) && SectAt(g, ch, k0) + cc <= total
    ensures forall t :: SectAt(g, ch, k0) <= t < SectAt(g, ch, k0) + cc ==>
      !InFatArea(g, t) && g.database <= t && ClusterOf(g, t) == ch[k0 / g.csize]
  {
    hide Sound, InRange, SectAt, ClusterOf;
    SoundCsize(g, total);
    forall t | SectAt(g, ch, k0) <= t < SectAt(g, ch, k0) + cc
      ensures !InFatArea(g, t) && g.database <= t < total && ClusterOf(g, t) == ch[k0 / g.csize]
    {
      RunSector(g, total, ch, k0, t - SectAt(g, ch, k0));
    }
    RunSector(g, total, ch, k0, 0);
    RunSector(g, total, ch, k0, cc - 1);
  }

  lemma RunSector(g: Geo, total: nat, ch: seq<nat>, k0: nat, j: nat)
    requires Sound(g, total) && InRange(g, ch) && k0 / g.csize < |ch| && k0 % g.csize + j < g.csize
    ensures var t := SectAt(g, ch, k0) + j;
      !InFatArea(g, t) && g.database <= t < total && ClusterOf(g, t) == ch[k0 / g.csize]
  {
    hide Sound, InRange, SectAt, ClusterOf;
    SoundCsize(g, total);
    SectAtRun(g, ch, k0, j);
    SectAtInside(g, total, ch, k0 + j);
  }

  lemma RunOnlyChain(g: Geo, d: Disk, ch: seq<nat>, k0: nat, data: seq<Byte>)
    requires Sound(g, |d|) && InRange(g, ch) && k0 / g.csize < |ch|
    requires |data| % 512 == 0 && 0 < |data| && k0 % g.csize + |data| / 512 <= g.csize
    requires SectAt(g, ch, k0) + |data| / 512 <= |d|
    ensures OnlyChainChanged(g, d, PutRun(d, SectAt(g, ch, k0), data), ch)
    ensures FatUntouched(g, d, PutRun(d, SectAt(g, ch, k0), data))
  {
    hide SectAt, PutRun, ClusterOf, InRange;
    RunInside(g, |d|, ch, k0, |data| / 512);
    SoundCsize(g, |d|);
    var e := PutRun(d, SectAt(g, ch, k0), data);
    assert ch[k0 / g.csize] in ch;
    forall s: nat | InFat(g, s) && g.nFats == 2
      ensures e[s] == d[s] && e[s + g.fatSize] == d[s + g.fatSize]
    {
      assert InFatArea(g, s) && InFatArea(g, s + g.fatSize);
    }
  }

  /** Everything a direct transfer of f_write to a file establishes. */
  lemma DirectPut(g: Geo, d: Disk, ch: seq<nat>, at: nat, data: seq<Byte>, size: nat)
    requires Sound(g, |d|) && InRange(g, ch) && IsChain(Fat(g, d), ch)
    requires |data| % 512 == 0 && 0 < |data| && at % 512 == 0
    requires ClusterIndex(g, at) < |ch| && at / 512 % g.csize + |data| / 512 <= g.csize
    requires Fits(g, ch, size)
    ensures var s := SectAt(g, ch, at / 512);
      && g.database <= s && s + |data| / 512 <= |d|
      && BytesPut(g, d, ch, PutRun(d, s, data), ch, at, data, size)
      && OnlyChainChanged(g, d, PutRun(d, s, data), ch)
      && Fat(g, PutRun(d, s, data)) == Fat(g, d)
    ensures Fits(g, ch, at + |data|)
    ensures ClusterIndex(g, at + |data| - 1) == ClusterIndex(g, at)
  {
    hide Sound, IsChain, InRange, PutRun, OnlyChainChanged, FatUntouched, BytesPut, Fat, SectAt;
    SoundCsize(g, |d|);
    var k0 := at / 512;
    RunPut(g, d, Fat(g, d), ch, k0, data, size);
    RunEnd(g, ch, k0, |data|);
    RunInside(g, |d|, ch, k0, |data| / 512);
    SameLinks(g, d, PutRun(d, SectAt(g, ch, k0), data));
  }

  // ---------------------------------------------------------------- partial sectors

  /** w is the sector o with src at offset off; its other bytes are kept, unless the sector is beyond the file. */
  predicate SectorPut(o: Sector, w: Sector, off: nat, src: seq<Byte>, keep: bool) {
    && off + |src| <= 512
    && w[off..off + |src|] == src
    && (keep ==> forall i :: 0 <= i < 512 && !(off <= i < off + |src|) ==> w[i] == o[i])
  }

  lemma PatchedByte(g: Geo, d: Disk, f: seq<nat>, ch: seq<nat>, at: nat, src: seq<Byte>, w: Sector, keep: bool, i: nat)
    requires Sound(g, |d|) && |f| == g.nFatent && IsChain(f, ch) && InRange(g, ch)
    requires ClusterIndex(g, at) < |ch| && ClusterIndex(g, i) < |ch| && at % 512 + |src| <= 512
    requires SectAt(g, ch, at / 512) < |d|
    requires SectorPut(d[SectAt(g, ch, at / 512)], w, at % 512, src, keep)
    requires keep || i / 512 != at / 512 || at <= i < at + |src|
    ensures ByteAt(g, d[SectAt(g, ch, at / 512) := w], ch, i)
      == if at <= i < at + |src| then src[i - at] else ByteAt(g, d, ch, i)
  {
    hide Sound, IsChain, InRange;
    SoundCsize(g, |d|);
    SectAtInside(g, |d|, ch, i / 512);
    if i / 512 == at / 512 {
      assert i - at == i % 512 - at % 512;
      if at <= i < at + |src| {
        assert w[i % 512] == w[at % 512..at % 512 + |src|][i - at];
      }
    } else {
      assert !(at <= i < at + |src|);
      if SectAt(g, ch, i / 512) == SectAt(g, ch, at / 512) {
        SectAtInjective(g, |d|, f, ch, i / 512, at / 512);
      }
    }
  }

  lemma PatchPut(g: Geo, d: Disk, f: seq<nat>, ch: seq<nat>, at: nat, src: seq<Byte>, w: Sector, keep: bool, size: nat)
    requires Sound(g, |d|) && |f| == g.nFatent && IsChain(f, ch) && InRange(g, ch)
    requires ClusterIndex(g, at) < |ch| && 0 < |src| && at % 512 + |src| <= 512
    requires Fits(g, ch, size)
    requires SectAt(g, ch, at / 512) < |d|
    requires SectorPut(d[SectAt(g, ch, at / 512)], w, at % 512, src, keep)
    requires keep || (size <= at && at % 512 == 0)
    ensures Fits(g, ch, at + |src|)
    ensures BytesPut(g, d, ch, d[SectAt(g, ch, at / 512) := w], ch, at, src, size)
    ensures OnlyChainChanged(g, d, d[SectAt(g, ch, at / 512) := w], ch)
    ensures FatUntouched(g, d, d[SectAt(g, ch, at / 512) := w])
  {
    hide Sound, IsChain, InRange, ByteAt, SectAt, SectorPut, OnlyChainChanged, FatUntouched;
    SoundCsize(g, |d|);
    PatchEnd(g, at, |src|);
    var e := d[SectAt(g, ch, at / 512) := w];
    forall i: nat | at <= i < at + |src|
      ensures ClusterIndex(g, i) < |ch| && ByteAt(g, e, ch, i) == src[i - at]
    {
      FitsBelow(g, ch, at + |src|, i);
      PatchedByte(g, d, f, ch, at, src, w, keep, i);
    }
    forall i: nat | i < size && !(at <= i < at + |src|)
      ensures ClusterIndex(g, i) < |ch| && ByteAt(g, e, ch, i) == ByteAt(g, d, ch, i)
    {
      FitsBelow(g, ch, size, i);
      PatchedByte(g, d, f, ch, at, src, w, keep, i);
    }
    PatchOnlyChain(g, d, ch, at / 512, w);
  }

  /** Everything a partial sector written by f_write establishes. */
  lemma PartPut(g: Geo, d: Disk, ch: seq<nat>, at: nat, src: seq<Byte>, w: Sector, keep: bool, size: nat)
    requires Sound(g, |d|) && InRange(g, ch) && IsChain(Fat(g, d), ch)
    requires ClusterIndex(g, at) < |ch| && 0 < |src| && at % 512 + |src| <= 512
    requires Fits(g, ch, size)
    requires SectAt(g, ch, at / 512) < |d|
    requires SectorPut(d[SectAt(g, ch, at / 512)], w, at % 512, src, keep)
    requires keep || (size <= at && at % 512 == 0)
    ensures var e := d[SectAt(g, ch, at / 512) := w];
      BytesPut(g, d, ch, e, ch, at, src, size) && OnlyChainChanged(g, d, e, ch) && Fat(g, e) == Fat(g, d)
    ensures Fits(g, ch, at + |src|)
    ensures ClusterIndex(g, at + |src| - 1) == ClusterIndex(g, at)
    ensures (at + |src|) % 512 != 0 ==>
      (at + |src|) / 512 == at / 512 && ClusterIndex(g, at + |src|) == ClusterIndex(g, at)
  {
    hide Sound, IsChain, InRange, OnlyChainChanged, FatUntouched, BytesPut, Fat, SectAt, SectorPut;
    SoundCsize(g, |d|);
    PatchPut(g, d, Fat(g, d), ch, at, src, w, keep, size);
    PatchEnd(g, at, |src|);
    SameLinks(g, d, d[SectAt(g, ch, at / 512) := w]);
  }

  /** Within one sector the last byte written is still in the same sector and cluster. */
  lemma PatchEnd(g: Geo, at: nat, n: nat)
    requires 0 < g.csize && 0 < n && at % 512 + n <= 512
    ensures (at + n - 1) / 512 == at / 512 && ClusterIndex(g, at + n - 1) == ClusterIndex(g, at)
    ensures (at + n) % 512 != 0 ==> (at + n) / 512 == at / 512
    ensures (at + n) % 512 == 0 <==> at % 512 + n == 512
  {
    Arith.DivUnique(at + n - 1, 512, at / 512, at % 512 + n - 1);
  }

  lemma PatchOnlyChain(g: Geo, d: Disk, ch: seq<nat>, k: nat, w: Sector)
    requires Sound(g, |d|) && InRange(g, ch) && k / g.csize < |ch| && SectAt(g, ch, k) < |d|
    ensures OnlyChainChanged(g, d, d[SectAt(g, ch, k) := w], ch)
    ensures FatUntouched(g, d, d[SectAt(g, ch, k) := w])
  {
    hide SectAt, ClusterOf, InRange;
    SectAtInside(g, |d|, ch, k);
    SoundCsize(g, |d|);
    assert ch[k / g.csize] in ch;
    forall s: nat | InFat(g, s) && g.nFats == 2
      ensures InFatArea(g, s) && InFatArea(g, s + g.fatSize)
    {
    }
  }

  // ---------------------------------------------------------------- positions in a file

  lemma FirstIndex(g: Geo)
    requires 0 < g.csize
    ensures ClusterIndex(g, 0) == 0
  {
    Arith.DivUnique(0, g.csize, 0, 0);
  }

  /** At a cluster boundary the next byte lies in the next cluster of the chain. */
  lemma BoundaryIndex(g: Geo, p: nat)
    requires 0 < g.csize && 0 < p && p % 512 == 0 && p / 512 % g.csize == 0
    ensures ClusterIndex(g, p) == ClusterIndex(g, p - 1) + 1
  {
    var k := p / 512 - 1;
    Arith.DivUnique(p - 1, 512, k, 511);
    Arith.DivStep(k, g.csize);
  }

  /** At any other place it lies in the same cluster. */
  lemma InnerIndex(g: Geo, p: nat)
    requires 0 < g.csize && 0 < p && (p % 512 != 0 || p / 512 % g.csize != 0)
    ensures ClusterIndex(g, p) == ClusterIndex(g, p - 1)
  {
    if p % 512 != 0 {
      Arith.DivUnique(p - 1, 512, p / 512, p % 512 - 1);
    } else {
      var k := p / 512 - 1;
      Arith.DivUnique(p - 1, 512, k, 511);
      Arith.DivStep(k, g.csize);
    }
  }

  lemma ZeroIsBoundary(g: Geo, p: nat)
    requires 0 < g.csize && (p % 512 != 0 || p / 512 % g.csize != 0)
    ensures 0 < p
  {
    Arith.DivUnique(0, g.csize, 0, 0);
  }

  /** p is the first byte of a cluster of the file. */
  predicate ClusterStart(g: Geo, p: nat)
    requires 0 < g.csize
  {
    p % 512 == 0 && p / 512 % g.csize == 0
  }

  /** A cluster start is its index times the cluster size, and the only one with that index. */
  lemma StartIsMultiple(g: Geo, p: nat)
    requires 0 < g.csize && ClusterStart(g, p)
    ensures p == ClusterIndex(g, p) * (g.csize * 512)
  {
    Arith.DivTwice(p, 512, g.csize);
    Arith.DivMod(p, g.csize * 512);
  }

  lemma MultipleIsStart(g: Geo, i: nat)
    requires 0 < g.csize
    ensures ClusterStart(g, i * (g.csize * 512)) && ClusterIndex(g, i * (g.csize * 512)) == i
  {
    assert i * (g.csize * 512) == i * g.csize * 512;
    Arith.DivUnique(i * (g.csize * 512), 512, i * g.csize, 0);
    Arith.DivUnique(i * g.csize, g.csize, i, 0);
  }

  /** Rounding a position down to its cluster, as f_lseek does with a mask. */
  lemma RoundDown(g: Geo, p: nat)
    requires 0 < g.csize
    ensures p % (g.csize * 512) <= p
    ensures ClusterStart(g, p - p % (g.csize * 512))
    ensures ClusterIndex(g, p - p % (g.csize * 512)) == ClusterIndex(g, p) == p / (g.csize * 512)
  {
    Arith.DivTwice(p, 512, g.csize);
    Arith.DivMod(p, g.csize * 512);
    MultipleIsStart(g, p / (g.csize * 512));
  }

  /** The start of the next cluster. */
  lemma NextStart(g: Geo, p: nat)
    requires 0 < g.csize && ClusterStart(g, p)
    ensures ClusterStart(g, p + g.csize * 512) && ClusterIndex(g, p + g.csize * 512) == ClusterIndex(g, p) + 1
  {
    var i, b := ClusterIndex(g, p), g.csize * 512;
    StartIsMultiple(g, p);
    assert (i + 1) * b == i * b + b;
    MultipleIsStart(g, i + 1);
  }

  /** r bytes into a cluster, but not beyond its end. */
  lemma IntoCluster(g: Geo, p: nat, r: nat)
    requires 0 < g.csize && ClusterStart(g, p) && 0 < r <= g.csize * 512
    ensures ClusterIndex(g, p + r - 1) == ClusterIndex(g, p) && (p + r) % 512 == r % 512
    ensures r % 512 != 0 ==>
      ClusterIndex(g, p + r) == ClusterIndex(g, p) && (p + r) / 512 % g.csize == r / 512
  {
    StartIsMultiple(g, p);
    Arith.DivUnique(p + r - 1, g.csize * 512, ClusterIndex(g, p), r - 1);
    Arith.DivTwice(p + r - 1, 512, g.csize);
    Arith.DivUnique(p + r, 512, p / 512 + r / 512, r % 512);
    if r % 512 != 0 {
      Arith.DivInside(p / 512, g.csize, r / 512);
    }
  }

  // ---------------------------------------------------------------- reading bytes

  /** The bytes of cc whole sectors. */
  function RunBytes(d: Disk, s: nat, cc: nat): (r: seq<Byte>)
    requires s + cc <= |d|
    ensures |r| == cc * 512
  {
    seq(cc * 512, j requires 0 <= j < cc * 512 => d[s + j / 512][j % 512])
  }

  /** b is what the file holds from byte p on. */
  ghost predicate Holds(g: Geo, d: Disk, ch: seq<nat>, p: nat, b: seq<Byte>) {
    && Sound(g, |d|) && InRange(g, ch) && Fits(g, ch, p + |b|)
    && forall i: nat :: p <= i < p + |b| ==> ClusterIndex(g, i) < |ch| && ByteAt(g, d, ch, i) == b[i - p]
  }

  lemma FitsLess(g: Geo, ch: seq<nat>, n: nat, m: nat)
    requires 0 < g.csize && Fits(g, ch, n) && m <= n
    ensures Fits(g, ch, m)
  {
    if m > 0 {
      FitsBelow(g, ch, n, m - 1);
    }
  }

  lemma HoldsNothing(g: Geo, d: Disk, ch: seq<nat>, p: nat)
    requires Sound(g, |d|) && InRange(g, ch) && Fits(g, ch, p)
    ensures Holds(g, d, ch, p, [])
  {
  }

  lemma HoldsBoth(g: Geo, d: Disk, ch: seq<nat>, p: nat, b: seq<Byte>, c: seq<Byte>)
    requires Holds(g, d, ch, p, b) && Holds(g, d, ch, p + |b|, c)
    ensures Holds(g, d, ch, p, b + c)
  {
    hide Sound, InRange, ByteAt, ClusterIndex, Fits;
    SoundCsize(g, |d|);
    assert p + |b + c| == p + |b| + |c|;
    forall i: nat | p <= i < p + |b + c|
      ensures ClusterIndex(g, i) < |ch| && ByteAt(g, d, ch, i) == (b + c)[i - p]
    {
      if i < p + |b| {
        assert ByteAt(g, d, ch, i) == b[i - p];
      } else {
        assert ByteAt(g, d, ch, i) == c[i - (p + |b|)];
      }
    }
  }

  /** Whole sectors of one cluster are consecutive bytes of the file. */
  lemma DirectBytes(g: Geo, d: Disk, ch: seq<nat>, p: nat, cc: nat)
    requires Sound(g, |d|) && InRange(g, ch) && p % 512 == 0 && ClusterIndex(g, p) < |ch|
    requires 0 < cc && p / 512 % g.csize + cc <= g.csize
    ensures Fits(g, ch, p + 512 * cc) && ClusterIndex(g, p + 512 * cc - 1) == ClusterIndex(g, p)
    ensures g.database <= SectAt(g, ch, p / 512) && SectAt(g, ch, p / 512) + cc <= |d|
    ensures Holds(g, d, ch, p, RunBytes(d, SectAt(g, ch, p / 512), cc))
  {
    hide Sound, InRange, SectAt, Fits;
    SoundCsize(g, |d|);
    var k0 := p / 512;
    Arith.DivUnique(512 * cc, 512, cc, 0);
    RunEnd(g, ch, k0, 512 * cc);
    RunInside(g, |d|, ch, k0, cc);
    var b := RunBytes(d, SectAt(g, ch, k0), cc);
    forall i: nat | p <= i < p + |b|
      ensures ClusterIndex(g, i) < |ch| && ByteAt(g, d, ch, i) == b[i - p]
    {
      var j := i - p;
      Arith.DivUnique(i, 512, k0 + j / 512, j % 512);
      SectAtRun(g, ch, k0, j / 512);
      FitsBelow(g, ch, p + 512 * cc, i);
    }
  }

  lemma PartBytes(g: Geo, d: Disk, ch: seq<nat>, p: nat, n: nat)
    requires Sound(g, |d|) && InRange(g, ch) && ClusterIndex(g, p) < |ch| && 0 < n && p % 512 + n <= 512
    ensures Fits(g, ch, p + n) && ClusterIndex(g, p + n - 1) == ClusterIndex(g, p)
    ensures (p + n) % 512 != 0 ==> (p + n) / 512 == p / 512 && ClusterIndex(g, p + n) == ClusterIndex(g, p)
    ensures 0 < SectAt(g, ch, p / 512) < |d|
    ensures Holds(g, d, ch, p, d[SectAt(g, ch, p / 512)][p % 512..p % 512 + n])
  {
    hide Sound, InRange, SectAt;
    SoundCsize(g, |d|);
    PatchEnd(g, p, n);
    SectAtInside(g, |d|, ch, p / 512);
    var b := d[SectAt(g, ch, p / 512)][p % 512..p % 512 + n];
    forall i: nat | p <= i < p + n
      ensures ClusterIndex(g, i) < |ch| && ByteAt(g, d, ch, i) == b[i - p]
    {
      Arith.DivUnique(i, 512, p / 512, p % 512 + (i - p));
    }
  }

  // ---------------------------------------------------------------- composition

  lemma BytesPutRefl(g: Geo, d: Disk, ch: seq<nat>, at: nat, size: nat)
    requires Sound(g, |d|) && InRange(g, ch) && Fits(g, ch, size) && Fits(g, ch, at)
    ensures BytesPut(g, d, ch, d, ch, at, [], size)
  {
    hide Sound, InRange, ByteAt;
    SoundCsize(g, |d|);
    forall i: nat | i < size
      ensures ClusterIndex(g, i) < |ch|
    {
      FitsBelow(g, ch, size, i);
    }
  }

  /** Allocating clusters or following links keeps the bytes of the file. */
  lemma BytesKept(g: Geo, d: Disk, e: Disk, ch: seq<nat>, ch': seq<nat>, at: nat, size: nat)
    requires OnlyFatChanged(g, d, e) && InRange(g, ch) && InRange(g, ch')
    requires |ch| <= |ch'| && ch == ch'[..|ch|] && Fits(g, ch, size) && Fits(g, ch', at)
    ensures Fits(g, ch', size)
    ensures BytesPut(g, d, ch, e, ch', at, [], size)
  {
    hide Sound, InRange;
    SoundCsize(g, |d|);
    forall i: nat | i < size
      ensures ClusterIndex(g, i) < |ch| && ByteAt(g, e, ch', i) == ByteAt(g, d, ch, i)
    {
      FitsBelow(g, ch, size, i);
      SectAtInside(g, |d|, ch, i / 512);
    }
  }

  /** A write after a write is one write of both pieces. */
  lemma BytesPutTrans(g: Geo, d0: Disk, c0: seq<nat>, d1: Disk, c1: seq<nat>, d2: Disk, c2: seq<nat>,
                      at: nat, s1: seq<Byte>, s2: seq<Byte>, size: nat, mid: nat)
    requires size <= mid && (at + |s1| <= mid || s1 == [])
    requires BytesPut(g, d0, c0, d1, c1, at, s1, size)
    requires BytesPut(g, d1, c1, d2, c2, at + |s1|, s2, mid)
    ensures BytesPut(g, d0, c0, d2, c2, at, s1 + s2, size)
  {
    hide Sound, InRange, ByteAt, ClusterIndex;
    SoundCsize(g, |d0|);
    if size > 0 {
      FitsBelow(g, c2, mid, size - 1);
    }
    hide Fits;
    var s := s1 + s2;
    forall i: nat | at <= i < at + |s|
      ensures ClusterIndex(g, i) < |c2| && ByteAt(g, d2, c2, i) == s[i - at]
    {
      if i < at + |s1| {
        assert ByteAt(g, d1, c1, i) == s1[i - at];
        assert ByteAt(g, d2, c2, i) == ByteAt(g, d1, c1, i);
      } else {
        assert ByteAt(g, d2, c2, i) == s2[i - (at + |s1|)];
      }
    }
    forall i: nat | i < size && !(at <= i < at + |s|)
      ensures ClusterIndex(g, i) < |c0| && ClusterIndex(g, i) < |c2| && ByteAt(g, d2, c2, i) == ByteAt(g, d0, c0, i)
    {
      assert ByteAt(g, d1, c1, i) == ByteAt(g, d0, c0, i);
    }
  }

  // ---------------------------------------------------------------- what the contracts mean together

  /**
   * A write to the file with chain s, grown to s', leaves every other file alone: its chain is
   * still a chain and holds the same bytes.
   */
  lemma OtherFileKept(g: Geo, d: Disk, e: Disk, f: seq<nat>, f': seq<nat>, cs: set<seq<nat>>,
                      s: seq<nat>, s': seq<nat>, other: seq<nat>, i: nat)
    requires Sound(g, |d|) && |f| == g.nFatent && Partition(f, cs)
    requires (s in cs || s == []) && other in cs && other != s
    requires Grew(f, f', s, s') && OnlyChainChanged(g, d, e, s')
    requires InRange(g, other) && ClusterIndex(g, i) < |other|
    ensures IsChain(f', other)
    ensures ByteAt(g, e, other, i) == ByteAt(g, d, other, i)
  {
    hide IsChain, InRange;
    forall c | c in other
      ensures c !in s'
    {
      OthersOutside(f, f', cs, s, s', other, c);
    }
    MemberIsChain(f, cs, other);
    ChainRange(f, other);
    ChainKept(f, f', other);
    SectAtInside(g, |d|, other, i / 512);
    assert other[i / 512 / g.csize] in other;
  }

  lemma OthersOutside(f: seq<nat>, f': seq<nat>, cs: set<seq<nat>>, s: seq<nat>, s': seq<nat>, t: seq<nat>, c: nat)
    requires Partition(f, cs) && (s in cs || s == []) && t in cs && t != s && c in t
    requires Grew(f, f', s, s')
    ensures c !in s'
  {
    ChainAllocated(f, t, c);
  }

  /** What f_write put is what f_read gets. */
  lemma WrittenIsRead(g: Geo, d: Disk, ch: seq<nat>, e: Disk, ch': seq<nat>, at: nat, src: seq<Byte>, size: nat, b: seq<Byte>)
    requires BytesPut(g, d, ch, e, ch', at, src, size) && Holds(g, e, ch', at, b) && |b| == |src|
    ensures b == src
  {
    hide Sound, InRange, ByteAt, ClusterIndex, Fits;
    forall j | 0 <= j < |b|
      ensures b[j] == src[j]
    {
      var i := at + j;
      assert ByteAt(g, e, ch', i) == src[i - at];
    }
  }
}

/** The cluster link map of fast seek: building it with f_lseek and looking a cluster up with clmt_clust. */
module LinkMap {
  import opened Geometry
  import opened Window
  import opened FatAccess
  import opened Chains
  import opened Allocator

  /** A fragment: number of contiguous clusters, and the first of them. */
  datatype Fragment = Fragment(len: nat, top: nat)

  function Run(f: Fragment): (r: seq<nat>)
    ensures |r| == f.len
  {
    seq(f.len, i requires 0 <= i < f.len => f.top + i)
  }

  /** The clusters a list of fragments stands for. */
  function Expand(fs: seq<Fragment>): seq<nat> {
    if fs == [] then [] else Expand(fs[..|fs| - 1]) + Run(fs[|fs| - 1])
  }

  /** Number of maximal contiguous runs in s: the first cluster and every one that does not follow its predecessor. */
  function Runs(s: seq<nat>): nat {
    if s == [] then 0 else Runs(s[..|s| - 1]) + if Breaks(s, |s| - 1) then 1 else 0
  }

  /** A run starts at position i. */
  predicate Breaks(s: seq<nat>, i: nat)
    requires i < |s|
  {
    i == 0 || s[i] != s[i - 1] + 1
  }

  /** The table holds the fragments from index 1 on. */
  ghost predicate Stores(t: seq<nat>, fs: seq<Fragment>) {
    && 1 + 2 * |fs| <= |t|
    && forall k :: 0 <= k < |fs| ==> t[1 + 2 * k] == fs[k].len && t[2 + 2 * k] == fs[k].top
  }

  /** A finished map of chain s: its fragments, none empty, and a terminating zero. */
  ghost predicate MapOf(t: seq<nat>, fs: seq<Fragment>, s: seq<nat>) {
    && Stores(t, fs) && 1 + 2 * |fs| < |t| && t[1 + 2 * |fs|] == 0
    && (forall k :: 0 <= k < |fs| ==> fs[k].len > 0)
    && Expand(fs) == s
  }

  lemma ExpandMore(fs: seq<Fragment>, f: Fragment)
    ensures Expand(fs + [f]) == Expand(fs) + Run(f)
  {
    assert (fs + [f])[..|fs|] == fs;
  }

  /** Skipping the first k fragments skips their clusters. */
  lemma {:induction false} ExpandPrefix(fs: seq<Fragment>, k: nat)
    requires k <= |fs|
    ensures Expand(fs[..k]) <= Expand(fs)
    ensures k < |fs| ==> |Expand(fs[..k])| + fs[k].len <= |Expand(fs)|
    ensures k < |fs| ==> Expand(fs)[|Expand(fs[..k])|..|Expand(fs[..k])| + fs[k].len] == Run(fs[k])
    decreases |fs|
  {
    if k < |fs| {
      var p := fs[..|fs| - 1];
      if k < |p| {
        ExpandPrefix(p, k);
        assert p[..k] == fs[..k];
      } else {
        assert p == fs[..k];
      }
    } else {
      assert fs[..k] == fs;
    }
  }

  // ---------------------------------------------------------------- clmt_clust

  /** clmt_clust: the cluster the chain has for this offset, 0 beyond its end. */
  method ClmtClust(csize: nat, tbl: array<nat>, ofs: nat, ghost fs: seq<Fragment>, ghost s: seq<nat>) returns (r: nat)
    requires 0 < csize && MapOf(tbl[..], fs, s)
    ensures r == if ofs / 512 / csize < |s| then s[ofs / 512 / csize] else 0
  {
    var i := 1;
    var cl := ofs / 512 / csize;
    ghost var cl0, k: nat := cl, 0;
    var ncl := tbl[i];
    while true
      invariant k <= |fs| && i == 1 + 2 * k && cl0 == |Expand(fs[..k])| + cl && cl >= 0
      decreases |fs| - k
    {
      ExpandPrefix(fs, k);
      assert tbl[..][i] == tbl[i];
      ncl := tbl[i];
      i := i + 1;
      if ncl == 0 {
        assert k == |fs|;
        assert fs[..k] == fs;
        return 0;
      }
      if cl < ncl {
        assert tbl[..][i] == tbl[i];
        ghost var p := |Expand(fs[..k])|;
        assert s[cl0] == s[p..p + fs[k].len][cl];
        return cl + tbl[i];
      }
      cl := cl - ncl;
      i := i + 1;
      assert fs[..k + 1] == fs[..k] + [fs[k]];
      ExpandMore(fs[..k], fs[k]);
      k := k + 1;
    }
  }

  // ---------------------------------------------------------------- CREATE_LINKMAP

  datatype Status = Ok | NotEnoughCore | IntErr

  /** The first j clusters of s are covered by the fragments, and a new run starts there. */
  ghost predicate Covers(fs: seq<Fragment>, s: seq<nat>, j: nat) {
    && j <= |s| && Expand(fs) == s[..j] && |fs| == Runs(s[..j])
    && (forall k :: 0 <= k < |fs| ==> fs[k].len > 0)
    && (j < |s| ==> Breaks(s, j))
  }

  /** A maximal run from position j to position i covers what lies between. */
  lemma CoverRun(fs: seq<Fragment>, s: seq<nat>, j: nat, i: nat)
    requires Covers(fs, s, j) && j < i <= |s| && (i < |s| ==> Breaks(s, i))
    requires forall k :: j < k < i ==> !Breaks(s, k)
    ensures Covers(fs + [Fragment(i - j, s[j])], s, i)
  {
    var f := Fragment(i - j, s[j]);
    ExpandMore(fs, f);
    RunIs(s, j, i);
    assert s[..i] == s[..j] + s[j..i];
    RunsOfRun(s, j, i);
  }

  lemma {:induction false} RunIs(s: seq<nat>, j: nat, i: nat)
    requires j < i <= |s| && forall k :: j < k < i ==> !Breaks(s, k)
    ensures Run(Fragment(i - j, s[j])) == s[j..i]
    decreases i
  {
    if i > j + 1 {
      RunIs(s, j, i - 1);
      assert !Breaks(s, i - 1);
      assert s[i - 2] == s[j..i - 1][i - 2 - j];
      assert s[j..i] == s[j..i - 1] + [s[i - 1]];
      assert Run(Fragment(i - j, s[j])) == Run(Fragment(i - 1 - j, s[j])) + [s[j] + (i - 1 - j)];
    }
  }

  lemma {:induction false} RunsOfRun(s: seq<nat>, j: nat, i: nat)
    requires j < i <= |s| && Breaks(s, j) && forall k :: j < k < i ==> !Breaks(s, k)
    ensures Runs(s[..i]) == Runs(s[..j]) + 1
    decreases i
  {
    var p := s[..i];
    assert p[..i - 1] == s[..i - 1];
    assert Breaks(p, i - 1) == Breaks(s, i - 1);
    if i > j + 1 {
      RunsOfRun(s, j, i - 1);
    }
  }

  /** Storing the fragment at the write position keeps those before it. */
  lemma StoreFragment(t: seq<nat>, u: seq<nat>, fs: seq<Fragment>, f: Fragment)
    requires Stores(t, fs) && |u| == |t| && 3 + 2 * |fs| <= |t|
    requires u == t[1 + 2 * |fs| := f.len][2 + 2 * |fs| := f.top]
    ensures Stores(u, fs + [f])
  {
  }

  /**
   * The inner loop: one maximal fragment from position j of the chain. It stops with an error only
   * when the last cluster is the last of the volume and its end mark is the number behind it.
   */
  method GetFragment(fs: FatFs, start: nat, ghost s: seq<nat>, ghost j: nat) returns (cl: nat, ncl: nat, ok: bool)
    requires fs.Valid() && IsChain(Links(fs), s) && j < |s| && start == s[j]
    modifies fs`disk, fs`winsect, fs`wflag, fs.win
    ensures fs.Valid() && fs.Logical() == old(fs.Logical())
    ensures !ok <==> EndMarkFollows(Links(fs), s) && forall k :: j < k < |s| ==> !Breaks(s, k)
    ensures ok ==> 0 < ncl && j + ncl <= |s|
    ensures ok ==> (forall k :: j < k < j + ncl ==> !Breaks(s, k)) && (j + ncl < |s| ==> Breaks(s, j + ncl))
    ensures ok ==> cl == if j + ncl < |s| then s[j + ncl] else Links(fs)[s[|s| - 1]]
  {
    hide Fat, Sound, IsChain;
    ghost var f := Links(fs);
    cl, ncl, ok := start, 0, true;
    var pcl := cl;
    while true
      invariant fs.Valid() && fs.Logical() == old(fs.Logical()) && ok && 0 <= ncl
      invariant if j + ncl < |s| then cl == s[j + ncl]
                else j + ncl == |s| && cl == |f| && EndMarkFollows(f, s)
      invariant forall k :: j < k < |s| && k <= j + ncl ==> !Breaks(s, k)
      decreases |s| - ncl
    {
      pcl := cl;
      if j + ncl < |s| {
        ChainLink(f, s, j + ncl);
      }
      ncl := ncl + 1;
      cl := GetLink(fs, cl);
      if j + ncl < |s| {
        ChainLink(f, s, j + ncl);
      }
      if cl <= 1 {
        ok := false;
        return;
      }
      if cl != pcl + 1 {
        assert j + ncl < |s| ==> Breaks(s, j + ncl);
        return;
      }
      if j + ncl == |s| {
        EndMarkAtLimit(f, s);
      }
    }
  }

  /** The chain ends in the last cluster of the volume, with an end mark equal to the next number. */
  ghost predicate EndMarkFollows(f: seq<nat>, s: seq<nat>) {
    s != [] && s[|s| - 1] < |f| && f[s[|s| - 1]] == s[|s| - 1] + 1
  }

  lemma EndMarkAtLimit(f: seq<nat>, s: seq<nat>)
    requires IsChain(f, s) && EndMarkFollows(f, s)
    ensures f[s[|s| - 1]] == |f|
  {
    ChainLink(f, s, |s| - 1);
  }

  /** A chain that makes CREATE_LINKMAP abort: cluster 2, the last of three entries, ends with the mark 3. */
  lemma AbortingChain()
    ensures IsChain([0, 0, 3], [2]) && EndMarkFollows([0, 0, 3], [2])
  {
  }

  /** The end mark this driver writes never equals the next number. */
  lemma OwnEndMarkIsSafe(g: Geo, total: nat, f: seq<nat>, s: seq<nat>)
    requires Sound(g, total) && |f| == g.nFatent && IsChain(f, s) && f[s[|s| - 1]] == EndMark(g.fsType)
    ensures !EndMarkFollows(f, s)
  {
    if EndMarkFollows(f, s) {
      EndMarkAtLimit(f, s);
    }
  }

  /** The loop state after some fragments: the required size so far, and all of them stored while they fit. */
  ghost predicate Building(t: seq<nat>, was: seq<nat>, frags: seq<Fragment>, s: seq<nat>, j: nat, p: nat, ulen: nat) {
    && Covers(frags, s, j) && ulen == 2 + 2 * |frags|
    && |t| == |was| && |was| > 0 && t[0] == was[0]
    && (forall k :: (was[0] <= k < |t|) && 1 <= k ==> t[k] == was[k])
    && (ulen <= was[0] ==> Stores(t, frags) && p == 1 + 2 * |frags|)
  }

  /** One more fragment, stored if it still fits. */
  lemma Built(t: seq<nat>, u: seq<nat>, was: seq<nat>, frags: seq<Fragment>, s: seq<nat>, j: nat, p: nat, ulen: nat, ncl: nat)
    requires Building(t, was, frags, s, j, p, ulen) && was[0] <= |was|
    requires 0 < ncl && j + ncl <= |s| && (forall k :: j < k < j + ncl ==> !Breaks(s, k))
    requires j + ncl < |s| ==> Breaks(s, j + ncl)
    requires ulen + 2 > was[0] ==> u == t
    requires ulen + 2 <= was[0] ==> p + 1 < |t| && u == t[p := ncl][p + 1 := s[j]]
    ensures Building(u, was, frags + [Fragment(ncl, s[j])], s, j + ncl,
                     if ulen + 2 <= was[0] then p + 2 else p, ulen + 2)
  {
    CoverRun(frags, s, j, j + ncl);
    if ulen + 2 <= was[0] {
      StoreFragment(t, u, frags, Fragment(ncl, s[j]));
    }
  }

  /** Storing a fragment while the table has room for it. */
  method PutFragment(tbl: array<nat>, p: nat, ulen: nat, tlen: nat, ncl: nat, tcl: nat,
                     ghost was: seq<nat>, ghost frags: seq<Fragment>, ghost s: seq<nat>, ghost j: nat) returns (q: nat)
    requires 2 <= ulen && Building(tbl[..], was, frags, s, j, p, ulen - 2) && tlen == was[0] <= |was|
    requires 0 < ncl && j + ncl <= |s| && tcl == s[j] && (forall k :: j < k < j + ncl ==> !Breaks(s, k))
    requires j + ncl < |s| ==> Breaks(s, j + ncl)
    modifies tbl
    ensures Building(tbl[..], was, frags + [Fragment(ncl, tcl)], s, j + ncl, q, ulen)
  {
    hide Covers, Breaks, Runs;
    ghost var t := tbl[..];
    q := p;
    if ulen <= tlen {
      tbl[p] := ncl;
      tbl[p + 1] := tcl;
      q := p + 2;
    }
    hide Building;
    Built(t, tbl[..], was, frags, s, j, p, ulen - 2, ncl);
  }

  /** The loops over all fragments of a chain. */
  method PutFragments(fs: FatFs, sclust: nat, tbl: array<nat>, ghost was: seq<nat>, ghost s: seq<nat>)
    returns (ok: bool, p: nat, ulen: nat, ghost frags: seq<Fragment>, ghost j: nat)
    requires fs.Valid() && tbl[..] == was && 0 < tbl.Length && tbl[0] <= tbl.Length
    requires s != [] && IsChain(Links(fs), s) && s[0] == sclust
    modifies fs`disk, fs`winsect, fs`wflag, fs.win, tbl
    ensures fs.Valid() && fs.Logical() == old(fs.Logical())
    ensures !ok <==> EndMarkFollows(old(Links(fs)), s)
    ensures Building(tbl[..], was, frags, s, j, p, ulen) && (ok ==> j == |s|)
  {
    hide Fat, Sound, IsChain, FatFs.Valid, FatFs.Logical, Runs, Breaks, Building;
    ghost var f := Links(fs);
    var tlen := tbl[0];
    p, ulen, ok, frags, j := 1, 2, true, [], 0;
    var cl := sclust;
    StartBuilding(was, s);
    while true
      invariant fs.Valid() && fs.Logical() == old(fs.Logical()) && ok && 2 <= ulen
      invariant Building(tbl[..], was, frags, s, j, p, ulen) && j < |s| && cl == s[j]
      decreases |s| - j
    {
      var tcl := cl;
      var ncl, got;
      cl, ncl, got := GetFragment(fs, cl, s, j);
      if !got {
        ok := false;
        return;
      }
      ulen := ulen + 2;
      p := PutFragment(tbl, p, ulen, tlen, ncl, tcl, was, frags, s, j);
      frags := frags + [Fragment(ncl, tcl)];
      j := j + ncl;
      if j < |s| {
        ChainLink(f, s, j);
      } else {
        ChainLink(f, s, |s| - 1);
        assert !EndMarkFollows(f, s);
      }
      if cl >= fs.geo.nFatent {
        return;
      }
    }
  }

  lemma StartBuilding(was: seq<nat>, s: seq<nat>)
    requires 0 < |was|
    ensures Building(was, was, [], s, 0, 1, 2)
  {
    NothingCovered(s);
  }

  /** Writing the size and, when there is room, the terminator completes the map. */
  lemma Finished(t: seq<nat>, was: seq<nat>, frags: seq<Fragment>, s: seq<nat>, p: nat, ulen: nat)
    requires Building(t, was, frags, s, |s|, p, ulen) && was[0] <= |was|
    ensures ulen == 2 + 2 * Runs(s)
    ensures ulen <= was[0] ==> 0 < p < |t| && p < was[0] && MapOf(t[0 := ulen][p := 0], frags, s)
  {
    hide Runs;
    assert s[..|s|] == s;
  }

  /**
   * f_lseek with CREATE_LINKMAP on a table whose first word is its length. It reports the exact
   * number of words a map of the chain takes; it never writes at or behind the given length, the
   * first word excepted; when the map fits, the table holds one that expands to the chain.
   */
  method CreateLinkMap(fs: FatFs, sclust: nat, tbl: array<nat>, ghost s: seq<nat>) returns (st: Status, ghost frags: seq<Fragment>)
    requires fs.Valid() && 0 < tbl.Length && tbl[0] <= tbl.Length
    requires (sclust == 0 <==> s == []) && (s != [] ==> IsChain(Links(fs), s) && s[0] == sclust)
    modifies fs`disk, fs`winsect, fs`wflag, fs.win, tbl
    ensures fs.Valid() && fs.Logical() == old(fs.Logical())
    ensures st == IntErr <==> EndMarkFollows(old(Links(fs)), s)
    ensures st != IntErr ==> tbl[0] == 2 + 2 * Runs(s) && (st == Ok <==> tbl[0] <= old(tbl[0]))
    ensures forall k :: 1 <= k < tbl.Length && k >= old(tbl[0]) ==> tbl[k] == old(tbl[k])
    ensures st == Ok ==> MapOf(tbl[..], frags, s)
  {
    hide Fat, Sound, IsChain, FatFs.Valid, FatFs.Logical, Runs, Covers, MapOf;
    ghost var was := tbl[..];
    var tlen := tbl[0];
    var ok, p, ulen := true, 1, 2;
    frags := [];
    ghost var j: nat := 0;
    StartBuilding(was, s);
    if sclust != 0 {
      ok, p, ulen, frags, j := PutFragments(fs, sclust, tbl, was, s);
    }
    if !ok {
      return IntErr, frags;
    }
    Finished(tbl[..], was, frags, s, p, ulen);
    ghost var t := tbl[..];
    tbl[0] := ulen;
    if ulen <= tlen {
      tbl[p] := 0;
      assert tbl[..] == t[0 := ulen][p := 0];
      st := Ok;
    } else {
      st := NotEnoughCore;
    }
  }

  lemma NothingCovered(s: seq<nat>)
    ensures Covers([], s, 0)
  {
    assert s[..0] == [];
  }
}

/**
 * Cluster chains over the FAT as an array of links. A link below 2 does not name a cluster
 * (0: free, 1: never valid), one at or above the array size ends a chain.
 */
module Chains {

  /** s is a chain: it follows the links of f from its first cluster to an end mark. */
  ghost predicate IsChain(f: seq<nat>, s: seq<nat>) {
    && |s| > 0
    && (forall i :: 0 <= i < |s| ==> 2 <= s[i] < |f|)
    && (forall i :: 0 <= i < |s| - 1 ==> f[s[i]] == s[i + 1])
    && f[s[|s| - 1]] >= |f|
  }

  /** No cluster is in two chains, and every cluster that is not free is in one. */
  ghost predicate Partition(f: seq<nat>, cs: set<seq<nat>>) {
    && (forall s :: s in cs ==> IsChain(f, s))
    && (forall s, t, c :: s in cs && t in cs && c in s && c in t ==> s == t)
    && (forall c :: 2 <= c < |f| && f[c] != 0 ==> Covered(cs, c))
  }

  ghost predicate Covered(cs: set<seq<nat>>, c: nat) {
    exists s :: s in cs && c in s
  }

  /** Chains are acyclic: no cluster occurs twice. */
  lemma {:induction false} ChainDistinct(f: seq<nat>, s: seq<nat>, i: nat, j: nat)
    requires IsChain(f, s) && i < j < |s|
    ensures s[i] != s[j]
    decreases |s| - j
  {
    if s[i] == s[j] {
      if j + 1 < |s| {
        ChainDistinct(f, s, i + 1, j + 1);
      }
    }
    ChainLink(f, s, i);
    ChainLink(f, s, j);
  }

  lemma ChainRange(f: seq<nat>, s: seq<nat>)
    requires IsChain(f, s)
    ensures |s| > 0 && forall c :: c in s ==> 2 <= c < |f|
  {
  }

  /** A cluster of a chain is not free. */
  lemma ChainAllocated(f: seq<nat>, s: seq<nat>, c: nat)
    requires IsChain(f, s) && c in s
    ensures 2 <= c < |f| && f[c] >= 2
  {
    var i :| 0 <= i < |s| && s[i] == c;
    if i < |s| - 1 {
      assert f[s[i]] == s[i + 1];
    }
  }

  /** The link of a chain element: the next element, or an end mark at the end. */
  lemma ChainLink(f: seq<nat>, s: seq<nat>, i: nat)
    requires IsChain(f, s) && i < |s|
    ensures 2 <= s[i] < |f|
    ensures if i + 1 < |s| then f[s[i]] == s[i + 1] else f[s[i]] >= |f|
  {
  }

  /** The first cluster determines the chain. */
  lemma {:induction false} ChainUnique(f: seq<nat>, s: seq<nat>, t: seq<nat>)
    requires IsChain(f, s) && IsChain(f, t) && s[0] == t[0]
    ensures s == t
  {
    ChainLink(f, s, 0);
    ChainLink(f, t, 0);
    if |s| > 1 {
      ChainTail(f, s);
      ChainTail(f, t);
      ChainUnique(f, s[1..], t[1..]);
      assert s == [s[0]] + s[1..] && t == [t[0]] + t[1..];
    }
  }

  lemma ChainTail(f: seq<nat>, s: seq<nat>)
    requires IsChain(f, s) && |s| > 1
    ensures IsChain(f, s[1..]) && f[s[0]] == s[1]
  {
    var t := s[1..];
    forall i | 0 <= i < |t| - 1
      ensures f[t[i]] == t[i + 1]
    {
      assert f[s[i + 1]] == s[i + 2];
    }
  }

  /** A chain keeps its links when none of its clusters is stored to. */
  lemma ChainKept(f: seq<nat>, g: seq<nat>, s: seq<nat>)
    requires IsChain(f, s) && |g| == |f|
    requires forall c :: c in s ==> g[c] == f[c]
    ensures IsChain(g, s)
  {
    forall i | 0 <= i < |s| - 1
      ensures g[s[i]] == s[i + 1]
    {
      assert f[s[i]] == s[i + 1];
    }
  }

  // ---------------------------------------------------------------- the four ways a FAT changes

  /** f with all clusters of s free. */
  function Freed(f: seq<nat>, s: seq<nat>): (r: seq<nat>)
    ensures |r| == |f|
    ensures forall c :: 0 <= c < |f| ==> r[c] == if c in s then 0 else f[c]
  {
    seq(|f|, c requires 0 <= c < |f| => if c in s then 0 else f[c])
  }

  lemma MemberIsChain(f: seq<nat>, cs: set<seq<nat>>, s: seq<nat>)
    requires Partition(f, cs) && s in cs
    ensures IsChain(f, s)
  {
  }

  /** A free cluster is in no chain. */
  lemma FreeIsOutside(f: seq<nat>, cs: set<seq<nat>>, c: nat)
    requires Partition(f, cs) && 2 <= c < |f| && f[c] == 0
    ensures forall s :: s in cs ==> c !in s
  {
    forall s | s in cs
      ensures c !in s
    {
      if c in s {
        ChainAllocated(f, s, c);
      }
    }
  }

  /** The chains of cs - {s} are chains of g as well when f and g differ only on s and on free clusters. */
  lemma OthersKept(f: seq<nat>, g: seq<nat>, cs: set<seq<nat>>, s: seq<nat>, t: seq<nat>)
    requires Partition(f, cs) && t in cs && t != s && |g| == |f|
    requires s in cs || s == []
    requires forall c :: 2 <= c < |f| && g[c] != f[c] ==> c in s || f[c] == 0
    ensures IsChain(g, t)
  {
    forall c | c in t
      ensures g[c] == f[c]
    {
      ChainAllocated(f, t, c);
    }
    ChainKept(f, g, t);
  }

  /** Removing one chain from the family, or none when s is empty. */
  lemma RemoveFromFamily(f: seq<nat>, g: seq<nat>, cs: set<seq<nat>>, s: seq<nat>)
    requires Partition(f, cs) && |g| == |f| && (s in cs || s == [])
    requires forall c :: 2 <= c < |f| ==> g[c] == if c in s then 0 else f[c]
    ensures Partition(g, cs - {s})
  {
    forall t | t in cs - {s}
      ensures IsChain(g, t)
    {
      OthersKept(f, g, cs, s, t);
    }
    forall c | 2 <= c < |g| && g[c] != 0
      ensures Covered(cs - {s}, c)
    {
      assert Covered(cs, c);
      var t :| t in cs && c in t;
      assert t in cs - {s};
    }
  }

  /** Adding a chain made of free clusters to the family. */
  lemma AddToFamily(f: seq<nat>, g: seq<nat>, cs: set<seq<nat>>, s: seq<nat>)
    requires Partition(f, cs) && |g| == |f| && IsChain(g, s)
    requires forall c :: c in s ==> f[c] == 0
    requires forall c :: 2 <= c < |f| && c !in s ==> g[c] == f[c]
    ensures Partition(g, cs + {s})
  {
    hide IsChain;
    ChainRange(g, s);
    forall t | t in cs
      ensures IsChain(g, t)
    {
      MemberIsChain(f, cs, t);
      ChainRange(f, t);
      OthersKept(f, g, cs, [], t);
    }
    forall t, c | t in cs && c in s
      ensures c !in t
    {
      FreeIsOutside(f, cs, c);
    }
    forall c | 2 <= c < |g| && g[c] != 0
      ensures Covered(cs + {s}, c)
    {
      if c !in s {
        assert Covered(cs, c);
        var t :| t in cs && c in t;
        assert t in cs + {s};
      }
    }
  }

  /** Exchanging one chain for another that uses its clusters and free ones. */
  lemma ReplaceChain(f: seq<nat>, g: seq<nat>, cs: set<seq<nat>>, s: seq<nat>, s': seq<nat>)
    requires Partition(f, cs) && s in cs && |g| == |f| && IsChain(g, s')
    requires forall c :: c in s' ==> c in s || f[c] == 0
    requires forall c :: 2 <= c < |f| && c !in s' ==> g[c] == if c in s then 0 else f[c]
    ensures Partition(g, cs - {s} + {s'})
  {
    hide Partition, IsChain;
    ChainRange(g, s');
    RemoveFromFamily(f, Freed(f, s), cs, s);
    AddToFamily(Freed(f, s), g, cs - {s}, s');
  }

  /** Allocating a free cluster makes a new chain of its own. */
  lemma NewChain(f: seq<nat>, cs: set<seq<nat>>, c: nat, eoc: nat)
    requires Partition(f, cs) && 2 <= c < |f| && f[c] == 0 && eoc >= |f|
    ensures Partition(f[c := eoc], cs + {[c]})
    ensures [c] !in cs
  {
    FreeIsOutside(f, cs, c);
    assert c in [c];
    AddToFamily(f, f[c := eoc], cs, [c]);
  }

  lemma StretchedIsChain(f: seq<nat>, s: seq<nat>, c: nat, eoc: nat)
    requires IsChain(f, s) && 2 <= c < |f| && f[c] == 0 && eoc >= |f|
    ensures IsChain(f[c := eoc][s[|s| - 1] := c], s + [c])
  {
    var last := s[|s| - 1];
    var g := f[c := eoc][last := c];
    var s' := s + [c];
    if c in s {
      ChainAllocated(f, s, c);
    }
    forall i | 0 <= i < |s'| - 1
      ensures g[s'[i]] == s'[i + 1]
    {
      if i < |s| - 1 {
        ChainDistinct(f, s, i, |s| - 1);
        ChainLink(f, s, i);
      }
    }
  }

  /** Stretching appends one free cluster to one chain and leaves all others as they are. */
  lemma StretchChain(f: seq<nat>, cs: set<seq<nat>>, s: seq<nat>, c: nat, eoc: nat)
    requires Partition(f, cs) && s in cs && 2 <= c < |f| && f[c] == 0 && eoc >= |f|
    ensures Partition(f[c := eoc][s[|s| - 1] := c], cs - {s} + {s + [c]})
  {
    hide Partition, IsChain;
    MemberIsChain(f, cs, s);
    ChainRange(f, s);
    var g := f[c := eoc][s[|s| - 1] := c];
    StretchedIsChain(f, s, c, eoc);
    assert forall x :: x in s ==> x in s + [c];
    assert c in s + [c];
    ReplaceChain(f, g, cs, s, s + [c]);
  }

  /** Freeing a chain removes it from the family. */
  lemma DropChain(f: seq<nat>, cs: set<seq<nat>>, s: seq<nat>)
    requires Partition(f, cs) && s in cs
    ensures Partition(Freed(f, s), cs - {s})
  {
    RemoveFromFamily(f, Freed(f, s), cs, s);
  }

  /** Clusters before and from position k of a chain. */
  lemma ChainSplit(f: seq<nat>, s: seq<nat>, k: nat)
    requires IsChain(f, s) && k <= |s|
    ensures forall x :: x in s <==> x in s[..k] || x in s[k..]
    ensures forall x :: x in s[..k] ==> x !in s[k..]
  {
    assert s == s[..k] + s[k..];
    forall i, j | 0 <= i < k <= j < |s|
      ensures s[i] != s[j]
    {
      ChainDistinct(f, s, i, j);
    }
  }

  lemma PrefixIsChain(f: seq<nat>, s: seq<nat>, k: nat, eoc: nat)
    requires IsChain(f, s) && 0 < k <= |s| && eoc >= |f|
    ensures IsChain(Freed(f[s[k - 1] := eoc], s[k..]), s[..k])
  {
    var g := Freed(f[s[k - 1] := eoc], s[k..]);
    var p := s[..k];
    ChainSplit(f, s, k);
    assert p[k - 1] in p;
    forall i | 0 <= i < |p| - 1
      ensures g[p[i]] == p[i + 1]
    {
      assert p[i] in p;
      ChainDistinct(f, s, i, k - 1);
      ChainLink(f, s, i);
    }
  }

  /** Ending a chain after its first k clusters and freeing the rest keeps exactly that prefix. */
  lemma CutChain(f: seq<nat>, cs: set<seq<nat>>, s: seq<nat>, k: nat, eoc: nat)
    requires Partition(f, cs) && s in cs && 0 < k <= |s| && eoc >= |f|
    ensures Partition(Freed(f[s[k - 1] := eoc], s[k..]), cs - {s} + {s[..k]})
  {
    hide Partition, IsChain;
    MemberIsChain(f, cs, s);
    ChainRange(f, s);
    PrefixIsChain(f, s, k, eoc);
    ChainSplit(f, s, k);
    assert s[..k][k - 1] in s[..k];
    ReplaceChain(f, Freed(f[s[k - 1] := eoc], s[k..]), cs, s, s[..k]);
  }

  // ---------------------------------------------------------------- counting free clusters

  /** Number of free clusters below n. */
  function FreeBelow(f: seq<nat>, n: nat): nat
    requires n <= |f|
  {
    if n <= 2 then 0 else FreeBelow(f, n - 1) + if f[n - 1] == 0 then 1 else 0
  }

  function FreeCount(f: seq<nat>): nat {
    FreeBelow(f, |f|)
  }

  lemma {:induction false} FreeBelowStore(f: seq<nat>, n: nat, c: nat, v: nat)
    requires n <= |f| && 2 <= c < |f|
    ensures FreeBelow(f[c := v], n) + (if c < n && f[c] == 0 then 1 else 0)
      == FreeBelow(f, n) + if c < n && v == 0 then 1 else 0
  {
    if n > 2 {
      FreeBelowStore(f, n - 1, c, v);
    }
  }

  /** Storing one link changes the count by what that cluster contributes. */
  lemma FreeCountStore(f: seq<nat>, c: nat, v: nat)
    requires 2 <= c < |f|
    ensures FreeCount(f[c := v]) + (if f[c] == 0 then 1 else 0) == FreeCount(f) + if v == 0 then 1 else 0
  {
    FreeBelowStore(f, |f|, c, v);
  }

  lemma {:induction false} FreeBelowBound(f: seq<nat>, n: nat)
    requires n <= |f|
    ensures FreeBelow(f, n) + 2 <= if n < 2 then 2 else n
    ensures (forall c :: 2 <= c < n ==> f[c] != 0) <==> FreeBelow(f, n) == 0
  {
    if n > 2 {
      FreeBelowBound(f, n - 1);
    }
  }

  lemma FreeCountBound(f: seq<nat>)
    ensures FreeCount(f) <= |f|
    ensures 2 <= |f| ==> FreeCount(f) + 2 <= |f|
  {
    FreeBelowBound(f, |f|);
  }

  // ---------------------------------------------------------------- what remove_chain does to any FAT

  datatype Removal = Removal(links: seq<nat>, ok: bool)

  /**
   * The effect of remove_chain's loop from cluster c on: it ends on every array, cyclic ones
   * included, because each round frees a cluster that was not free.
   */
  ghost function Removed(f: seq<nat>, c: nat): (r: Removal)
    requires 2 <= c
    ensures |r.links| == |f|
    decreases |f| - FreeCount(f)
  {
    if c >= |f| || f[c] == 0 then Removal(f, true)
    else if f[c] == 1 then Removal(f, false)
    else
      FreeCountStore(f, c, 0);
      FreeBelowBound(f[c := 0], |f|);
      Removed(f[c := 0], f[c])
  }

  /** Freeing the first cluster of a chain leaves the chain of the others. */
  lemma UnlinkHead(f: seq<nat>, s: seq<nat>)
    requires IsChain(f, s) && |s| > 1
    ensures IsChain(f[s[0] := 0], s[1..])
    ensures Freed(f[s[0] := 0], s[1..]) == Freed(f, s)
  {
    ChainTail(f, s);
    ChainSplit(f, s, 1);
    assert s[..1] == [s[0]];
    assert s[0] in s[..1];
    ChainRange(f, s[1..]);
    ChainKept(f, f[s[0] := 0], s[1..]);
  }

  /** On a chain it frees exactly the clusters of the chain. */
  lemma {:induction false} RemovedChain(f: seq<nat>, s: seq<nat>)
    requires IsChain(f, s)
    ensures Removed(f, s[0]) == Removal(Freed(f, s), true)
    decreases |s|
  {
    hide IsChain, Freed;
    ChainRange(f, s);
    ChainLink(f, s, 0);
    var g := f[s[0] := 0];
    if |s| == 1 {
      assert Removed(g, f[s[0]]) == Removal(g, true);
      assert forall c :: c in s <==> c == s[0];
      assert g == Freed(f, s);
    } else {
      UnlinkHead(f, s);
      RemovedChain(g, s[1..]);
    }
  }
}

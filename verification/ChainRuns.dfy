/** Whole runs of allocating, stretching, releasing and truncating keep the FAT a family of disjoint chains. */
module ChainRuns {
  import opened Chains
  import opened Allocator

  /** The links and the chains they are supposed to form. */
  datatype State = State(links: seq<nat>, chains: set<seq<nat>>)

  /** One call. c is the cluster the scan of create_chain found. */
  datatype Op =
    | Create(c: nat)                  // create_chain(fs, 0)
    | Stretch(s: seq<nat>, c: nat)    // create_chain(fs, last cluster of s)
    | Follow(s: seq<nat>, i: nat)     // create_chain(fs, an inner cluster of s)
    | Remove(s: seq<nat>)             // remove_chain(fs, first cluster of s)
    | Truncate(s: seq<nat>, k: nat)   // f_truncate keeping the first k clusters of s

  /** The calls the file code makes in a given state. */
  ghost predicate Enabled(st: State, op: Op) {
    match op
    case Create(c) => 2 <= c < |st.links| && st.links[c] == 0
    case Stretch(s, c) => s in st.chains && 2 <= c < |st.links| && st.links[c] == 0
    case Follow(s, i) => s in st.chains && i + 1 < |s|
    case Remove(s) => s in st.chains
    case Truncate(s, k) => s in st.chains && 0 < k < |s|
  }

  /** What the code does to the links, and what that should mean for the chains. */
  ghost function Apply(st: State, op: Op, eoc: nat): State
    requires Partition(st.links, st.chains) && Enabled(st, op)
  {
    var f := st.links;
    match op
    case Create(c) => State(Grown(f, 0, c, eoc), st.chains + {[c]})
    case Stretch(s, c) =>
      ChainRange(f, s);
      State(Grown(f, s[|s| - 1], c, eoc), st.chains - {s} + {s + [c]})
    case Follow(s, i) => st
    case Remove(s) =>
      ChainRange(f, s);
      State(Removed(f, s[0]).links, st.chains - {s})
    case Truncate(s, k) =>
      ChainRange(f, s);
      State(Removed(f[s[k - 1] := eoc], s[k]).links, st.chains - {s} + {s[..k]})
  }

  /** The tail of a chain that was ended before it is a chain of its own, and remove_chain frees it. */
  lemma TailRemoved(f: seq<nat>, s: seq<nat>, k: nat, eoc: nat)
    requires IsChain(f, s) && 0 < k < |s| && eoc >= |f|
    ensures Removed(f[s[k - 1] := eoc], s[k]) == Removal(Freed(f[s[k - 1] := eoc], s[k..]), true)
  {
    var g := f[s[k - 1] := eoc];
    assert IsChain(f, s[k..]) by {
      SuffixIsChain(f, s, k);
    }
    ChainSplit(f, s, k);
    assert s[..k][k - 1] in s[..k];
    ChainKept(f, g, s[k..]);
    RemovedChain(g, s[k..]);
  }

  lemma SuffixIsChain(f: seq<nat>, s: seq<nat>, k: nat)
    requires IsChain(f, s) && k < |s|
    ensures IsChain(f, s[k..])
  {
    var t := s[k..];
    forall i | 0 <= i < |t|
      ensures 2 <= t[i] < |f| && (i < |t| - 1 ==> f[t[i]] == t[i + 1])
    {
      ChainLink(f, s, k + i);
    }
    ChainLink(f, s, |s| - 1);
  }

  /** Every call keeps the family: exactly one chain appears, grows by one cluster, vanishes or is cut. */
  lemma StepKeepsPartition(st: State, op: Op, eoc: nat)
    requires Partition(st.links, st.chains) && Enabled(st, op) && eoc >= |st.links|
    ensures var r := Apply(st, op, eoc); |r.links| == |st.links| && Partition(r.links, r.chains)
  {
    hide Partition, IsChain, Freed;
    var f := st.links;
    match op
    case Create(c) => NewChain(f, st.chains, c, eoc);
    case Stretch(s, c) =>
      MemberIsChain(f, st.chains, s);
      ChainRange(f, s);
      StretchChain(f, st.chains, s, c, eoc);
    case Follow(s, i) =>
    case Remove(s) =>
      MemberIsChain(f, st.chains, s);
      RemovedChain(f, s);
      DropChain(f, st.chains, s);
    case Truncate(s, k) =>
      MemberIsChain(f, st.chains, s);
      TailRemoved(f, s, k, eoc);
      CutChain(f, st.chains, s, k, eoc);
  }

  /** A run: every call is enabled in the state its predecessors left. */
  ghost predicate Runs(st: State, ops: seq<Op>, eoc: nat, end: State)
    decreases |ops|
  {
    if ops == [] then st == end
    else
      && Partition(st.links, st.chains)
      && Enabled(st, ops[0])
      && Runs(Apply(st, ops[0], eoc), ops[1..], eoc, end)
  }

  /** Every run from a well-formed FAT ends in a well-formed FAT of the same size. */
  lemma {:induction false} RunKeepsPartition(st: State, ops: seq<Op>, eoc: nat, end: State)
    requires Partition(st.links, st.chains) && eoc >= |st.links| && Runs(st, ops, eoc, end)
    ensures |end.links| == |st.links| && Partition(end.links, end.chains)
    decreases |ops|
  {
    hide Partition, Apply;
    if ops != [] {
      StepKeepsPartition(st, ops[0], eoc);
      RunKeepsPartition(Apply(st, ops[0], eoc), ops[1..], eoc, end);
    }
  }

  /** Stretching is what create_chain does to the last cluster; to an inner one it only returns the next. */
  lemma CreateChainOnChain(f: seq<nat>, s: seq<nat>, i: nat)
    requires IsChain(f, s) && i < |s|
    ensures f[s[i]] >= 2
    ensures f[s[i]] >= |f| <==> i == |s| - 1
    ensures i < |s| - 1 ==> f[s[i]] == s[i + 1]
  {
    ChainLink(f, s, i);
    if i < |s| - 1 {
      ChainLink(f, s, i + 1);
    }
  }
}

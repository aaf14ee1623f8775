/** A directory table as a finite map from 11-byte names to 32-byte entries. */
module DirMap {
  import opened Bytes

  type Slot = e: seq<Byte> | |e| == 32 witness seq(32, i => 0)
  type Name = n: seq<Byte> | |n| == 11 witness seq(11, i => 0)

  const DELETED: Byte := 0xE5  // DDE

  /** A slot dir_register may use. */
  predicate Blank(e: Slot) {
    e[0] == 0 || e[0] == 0xE5
  }

  /** Entries of files and directories: neither blank nor a volume label (AM_VOL). */
  predicate Live(e: Slot) {
    !Blank(e) && e[11] / 8 % 2 == 0
  }

  function NameOf(e: Slot): Name {
    e[..11]
  }

  /** Names create_name produces: the first byte is neither the end mark nor the deleted mark. */
  predicate Proper(fn: Name) {
    fn[0] != 0 && fn[0] != 0xE5
  }

  /** The test of dir_find on one slot. */
  predicate Matches(e: Slot, fn: Name) {
    e[11] / 8 % 2 == 0 && NameOf(e) == fn
  }

  /** Behind the first end mark there are only end marks, and no name is in use twice. */
  ghost predicate WellFormed(t: seq<Slot>) {
    && (forall i, j :: 0 <= i < j < |t| && t[i][0] == 0 ==> t[j][0] == 0)
    && (forall i, j :: 0 <= i < j < |t| && Live(t[i]) && Live(t[j]) ==> NameOf(t[i]) != NameOf(t[j]))
  }

  /** The map a directory stands for. */
  ghost function Entries(t: seq<Slot>): (m: map<Name, Slot>)
    requires WellFormed(t)
    ensures forall i :: 0 <= i < |t| && Live(t[i]) ==> NameOf(t[i]) in m && m[NameOf(t[i])] == t[i]
    ensures forall n :: n in m ==> exists i :: 0 <= i < |t| && Live(t[i]) && NameOf(t[i]) == n
  {
    map i | 0 <= i < |t| && Live(t[i]) :: NameOf(t[i]) := t[i]
  }

  /** Some live slot with name k is e. */
  ghost predicate Has(t: seq<Slot>, k: Name, e: Slot) {
    NameOf(e) == k && Live(e) && e in t
  }

  ghost predicate Maps(m: map<Name, Slot>, k: Name, e: Slot) {
    k in m && m[k] == e
  }

  lemma EntriesHas(t: seq<Slot>, k: Name, e: Slot)
    requires WellFormed(t)
    ensures Has(t, k, e) <==> Maps(Entries(t), k, e)
  {
    if Has(t, k, e) {
      var i :| 0 <= i < |t| && t[i] == e;
    }
  }

  /** Maps are equal when they hold the same pairs. */
  lemma SameEntries(t: seq<Slot>, m: map<Name, Slot>)
    requires WellFormed(t)
    requires forall k: Name, e: Slot :: Has(t, k, e) <==> Maps(m, k, e)
    ensures Entries(t) == m
  {
    hide Has, WellFormed, Entries;
    var n := Entries(t);
    forall k: Name
      ensures k in n <==> k in m
      ensures k in n ==> n[k] == m[k]
    {
      if k in n {
        EntriesHas(t, k, n[k]);
      }
      if k in m {
        EntriesHas(t, k, m[k]);
      }
    }
  }

  // ---------------------------------------------------------------- dir_find

  /** dir_find stops at slot i with a match. */
  ghost predicate FoundAt(t: seq<Slot>, fn: Name, i: nat) {
    && i < |t| && t[i][0] != 0 && Matches(t[i], fn)
    && forall j :: 0 <= j < i ==> t[j][0] != 0 && !Matches(t[j], fn)
  }

  /** dir_find meets the end mark or the end of the table first. */
  ghost predicate NotFound(t: seq<Slot>, fn: Name) {
    exists n: nat :: EndsWithout(t, fn, n)
  }

  /** Slot n is the end of the table or an end mark, and no slot before it matches. */
  ghost predicate EndsWithout(t: seq<Slot>, fn: Name, n: nat) {
    n <= |t| && (n < |t| ==> t[n][0] == 0) && forall j :: 0 <= j < n ==> !Matches(t[j], fn)
  }

  /** dir_find has gone over the first i slots. */
  ghost predicate Passed(t: seq<Slot>, fn: Name, i: nat) {
    i <= |t| && forall j :: 0 <= j < i ==> t[j][0] != 0 && !Matches(t[j], fn)
  }

  /** What dir_find knows after looking at slot i. */
  lemma PassOne(t: seq<Slot>, fn: Name, i: nat)
    requires Passed(t, fn, i) && i < |t|
    ensures t[i][0] == 0 ==> NotFound(t, fn)
    ensures t[i][0] != 0 && Matches(t[i], fn) ==> FoundAt(t, fn, i)
    ensures t[i][0] != 0 && !Matches(t[i], fn) ==> Passed(t, fn, i + 1)
  {
    hide Matches;
    if t[i][0] == 0 {
      assert EndsWithout(t, fn, i);
    }
  }

  lemma PassAll(t: seq<Slot>, fn: Name)
    requires Passed(t, fn, |t|)
    ensures NotFound(t, fn)
  {
    hide Matches;
    assert EndsWithout(t, fn, |t|);
  }

  /** On a well-formed directory dir_find is lookup. */
  lemma FindIsLookup(t: seq<Slot>, fn: Name)
    requires WellFormed(t) && Proper(fn)
    ensures forall i: nat :: FoundAt(t, fn, i) ==> fn in Entries(t) && Entries(t)[fn] == t[i]
    ensures NotFound(t, fn) <==> fn !in Entries(t)
  {
    forall i: nat | FoundAt(t, fn, i)
      ensures fn in Entries(t) && Entries(t)[fn] == t[i]
    {
      MatchIsLive(t[i], fn);
    }
    if NotFound(t, fn) {
      var n: nat :| EndsWithout(t, fn, n);
      forall i | 0 <= i < |t| && Live(t[i])
        ensures NameOf(t[i]) != fn
      {
        if n < |t| {
          LiveBeforeMark(t, n, i);
        }
        assert Matches(t[i], NameOf(t[i]));
      }
    }
    if fn !in Entries(t) {
      NothingMatches(t, fn);
    }
  }

  lemma MatchIsLive(e: Slot, fn: Name)
    requires Matches(e, fn) && Proper(fn)
    ensures Live(e) && NameOf(e) == fn
  {
    assert e[0] == NameOf(e)[0];
  }

  lemma LiveBeforeMark(t: seq<Slot>, n: nat, i: nat)
    requires WellFormed(t) && n < |t| && t[n][0] == 0 && i < |t| && Live(t[i])
    ensures i < n
  {
  }

  lemma NothingMatches(t: seq<Slot>, fn: Name)
    requires WellFormed(t) && Proper(fn) && fn !in Entries(t)
    ensures NotFound(t, fn)
  {
    forall j | 0 <= j < |t|
      ensures !Matches(t[j], fn)
    {
      var e := t[j];
      if Matches(e, fn) {
        MatchIsLive(e, fn);
        EntriesHas(t, fn, e);
      }
    }
    assert EndsWithout(t, fn, |t|);
  }

  // ---------------------------------------------------------------- dir_register and dir_remove

  /** The entry dir_register leaves: the name, all else zero. */
  function NewEntry(fn: Name): (e: Slot)
    ensures NameOf(e) == fn && forall i :: 11 <= i < 32 ==> e[i] == 0
  {
    fn + seq(21, i => 0)
  }

  /** None of the first i slots is blank. */
  ghost predicate InUse(t: seq<Slot>, i: nat) {
    i <= |t| && forall j :: 0 <= j < i ==> !Blank(t[j])
  }

  ghost predicate ZeroMarked(z: seq<Slot>) {
    forall i :: 0 <= i < |z| ==> z[i][0] == 0
  }

  lemma UseOne(t: seq<Slot>, i: nat)
    requires InUse(t, i) && i < |t|
    ensures if Blank(t[i]) then FirstBlank(t, i) else InUse(t, i + 1)
  {
  }

  lemma UseExtended(t: seq<Slot>, z: seq<Slot>, i: nat)
    requires InUse(t, i)
    ensures InUse(t + z, i)
  {
  }

  /** Slot i is the first blank one. */
  ghost predicate FirstBlank(t: seq<Slot>, i: nat) {
    i < |t| && Blank(t[i]) && forall j :: 0 <= j < i ==> !Blank(t[j])
  }

  /** A slot of a table with one slot replaced. */
  lemma ReplacedHas(t: seq<Slot>, i: nat, x: Slot, k: Name, e: Slot)
    requires WellFormed(t) && i < |t|
    ensures Has(t[i := x], k, e) <==>
      (e == x && Live(x) && NameOf(x) == k) || (Has(t, k, e) && !(Live(t[i]) && NameOf(t[i]) == k))
  {
    hide NameOf, Live;
    var u := t[i := x];
    if Has(u, k, e) && e != x {
      var j :| 0 <= j < |u| && u[j] == e;
      assert t[j] == e;
    }
    if e == x {
      assert u[i] == x;
    }
    if Has(t, k, e) && !(Live(t[i]) && NameOf(t[i]) == k) {
      var j :| 0 <= j < |t| && t[j] == e;
      assert u[j] == e;
    }
  }

  lemma AbsentName(t: seq<Slot>, fn: Name, j: nat)
    requires WellFormed(t) && fn !in Entries(t) && j < |t| && Live(t[j])
    ensures NameOf(t[j]) != fn
  {
    EntriesHas(t, NameOf(t[j]), t[j]);
  }

  lemma RegisterWellFormed(t: seq<Slot>, fn: Name, i: nat)
    requires WellFormed(t) && Proper(fn) && FirstBlank(t, i) && fn !in Entries(t)
    ensures WellFormed(t[i := NewEntry(fn)])
    ensures Live(NewEntry(fn)) && NameOf(NewEntry(fn)) == fn && !Live(t[i])
  {
    var x := NewEntry(fn);
    assert NameOf(x) == fn && x[0] == fn[0] && Live(x);
    forall j: nat | j < |t| && Live(t[j])
      ensures NameOf(t[j]) != fn
    {
      AbsentName(t, fn, j);
    }
    hide NameOf, NewEntry, Entries;
  }

  /** Registering an absent name in the first blank slot is insertion. */
  lemma RegisterIsInsert(t: seq<Slot>, fn: Name, i: nat)
    requires WellFormed(t) && Proper(fn) && FirstBlank(t, i) && fn !in Entries(t)
    ensures WellFormed(t[i := NewEntry(fn)])
    ensures Entries(t[i := NewEntry(fn)]) == Entries(t)[fn := NewEntry(fn)]
  {
    hide WellFormed, Has, Live, NameOf, NewEntry, FirstBlank, Entries;
    var x := NewEntry(fn);
    RegisterWellFormed(t, fn, i);
    assert i < |t| by { FirstBlankInside(t, i); }
    var u, m := t[i := x], Entries(t)[fn := x];
    forall k: Name, e: Slot
      ensures Has(u, k, e) <==> Maps(m, k, e)
    {
      ReplacedHas(t, i, x, k, e);
      EntriesHas(t, k, e);
    }
    SameEntries(u, m);
  }

  lemma FirstBlankInside(t: seq<Slot>, i: nat)
    requires FirstBlank(t, i)
    ensures i < |t|
  {
  }

  /** Zeroed slots at the end of a table change nothing. */
  lemma StretchIsNeutral(t: seq<Slot>, z: seq<Slot>)
    requires WellFormed(t) && ZeroMarked(z)
    ensures WellFormed(t + z) && Entries(t + z) == Entries(t)
  {
    hide NameOf, Entries;
    var u := t + z;
    assert forall i :: 0 <= i < |u| ==> if i < |t| then u[i] == t[i] else u[i][0] == 0;
    assert WellFormed(u);
    forall k: Name, e: Slot
      ensures Has(u, k, e) <==> Maps(Entries(t), k, e)
    {
      assert Live(e) ==> e !in z;
      EntriesHas(t, k, e);
    }
    SameEntries(u, Entries(t));
  }

  /** Marking a live slot as deleted removes exactly its name. */
  lemma RemoveIsDelete(t: seq<Slot>, i: nat)
    requires WellFormed(t) && i < |t| && Live(t[i])
    ensures WellFormed(t[i := t[i][0 := DELETED]])
    ensures Entries(t[i := t[i][0 := DELETED]]) == Entries(t) - {NameOf(t[i])}
  {
    var x := t[i][0 := DELETED];
    assert !Live(x) && x[0] != 0 && t[i][0] != 0;
    hide NameOf, Entries, Live, Has;
    var u, m := t[i := x], Entries(t) - {NameOf(t[i])};
    assert WellFormed(u);
    forall k: Name, e: Slot
      ensures Has(u, k, e) <==> Maps(m, k, e)
    {
      ReplacedHas(t, i, x, k, e);
      EntriesHas(t, k, e);
    }
    SameEntries(u, m);
  }
}

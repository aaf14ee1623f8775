/** Packed FAT entries: get_fat and put_fat as reads and stores of an array of cluster links. */
module FatAccess {
  import opened Bytes
  import opened Geometry
  import opened Window
  import Arith

  /** Byte i of the first FAT. */
  function FatByte(g: Geo, d: Disk, i: nat): Byte
    requires g.fatbase + g.fatSize <= |d| && i < g.fatSize * 512
  {
    d[g.fatbase + i / 512][i % 512]
  }

  /** Entry values are kept modulo this bound: 12, 16 or 28 bits. */
  function EntryRange(t: FatType): nat {
    match t
    case Fat12 => 0x1000
    case Fat16 => 0x1_0000
    case Fat32 => 0x1000_0000
  }

  /** The link stored for cluster c. */
  function Entry(g: Geo, d: Disk, c: nat): (r: nat)
    requires Sound(g, |d|) && c < g.nFatent
    ensures r < EntryRange(g.fsType)
  {
    EntryInsideFat(g, |d|, c);
    var i := EntryByte(g.fsType, c);
    match g.fsType
    case Fat12 =>
      Value12(c, FatByte(g, d, i), FatByte(g, d, i + 1))
    case Fat16 => LdWord(FatByte(g, d, i), FatByte(g, d, i + 1))
    case Fat32 =>
      LdDword(FatByte(g, d, i), FatByte(g, d, i + 1), FatByte(g, d, i + 2), FatByte(g, d, i + 3)) % 0x1000_0000
  }

  /** The whole FAT as an array: cluster -> link. */
  ghost function Fat(g: Geo, d: Disk): (f: seq<nat>)
    requires Sound(g, |d|)
    ensures |f| == g.nFatent
  {
    seq(g.nFatent, c requires 0 <= c < g.nFatent => Entry(g, d, c))
  }

  /** The four reserved bits above a FAT32 entry. */
  function TopNibble(g: Geo, d: Disk, c: nat): nat
    requires Sound(g, |d|) && g.fsType == Fat32 && c < g.nFatent
  {
    FatByte(g, d, 4 * c + 3) / 16
  }

  ghost predicate InFatArea(g: Geo, s: nat) {
    g.fatbase <= s < g.fatbase + FatArea(g)
  }

  /** e is d with the bytes bs at offset i of the FAT; no sector outside the FAT area differs, mirroring is kept. */
  ghost predicate FatPatched(g: Geo, d: Disk, e: Disk, i: nat, bs: seq<Byte>) {
    && Sound(g, |d|) && |e| == |d|
    && i + |bs| <= g.fatSize * 512
    && (forall k: nat :: k < g.fatSize * 512 ==>
          FatByte(g, e, k) == if i <= k < i + |bs| then bs[k - i] else FatByte(g, d, k))
    && (forall s: nat :: s < |d| && !InFatArea(g, s) ==> e[s] == d[s])
    && (Mirrored(g, d) ==> Mirrored(g, e))
  }

  /** e differs from d in the link of cluster c only, which becomes v, and on FAT32 in its reserved nibble top. */
  ghost predicate LinkStored(g: Geo, d: Disk, e: Disk, c: nat, v: nat, top: nat) {
    && Sound(g, |d|) && |e| == |d| && c < g.nFatent
    && Fat(g, e) == Fat(g, d)[c := v]
    && (forall s: nat :: s < |d| && !InFatArea(g, s) ==> e[s] == d[s])
    && (Mirrored(g, d) ==> Mirrored(g, e))
    && (g.fsType == Fat32 ==>
          forall k: nat :: k < g.nFatent ==> TopNibble(g, e, k) == if k == c then top else TopNibble(g, d, k))
  }

  // ---------------------------------------------------------------- bytes to entries

  /** Patching the window over a FAT sector patches the FAT. */
  lemma StoreIsPatch(g: Geo, d: Disk, s: nat, at: nat, bs: seq<Byte>)
    requires Sound(g, |d|) && InFat(g, s) && at + |bs| <= 512
    ensures FatPatched(g, d, Store(g, d, s, Splice(d[s], at, bs)), (s - g.fatbase) * 512 + at, bs)
  {
    var w := Splice(d[s], at, bs);
    var e := Store(g, d, s, w);
    StoreKeeps(g, d, s, w);
    var i := (s - g.fatbase) * 512 + at;
    forall k: nat | k < g.fatSize * 512
      ensures FatByte(g, e, k) == if i <= k < i + |bs| then bs[k - i] else FatByte(g, d, k)
    {
      if g.fatbase + k / 512 == s {
        assert e[s] == w;
      } else {
        StoreElsewhere(g, d, s, w, g.fatbase + k / 512);
      }
    }
  }

  lemma StoreKeeps(g: Geo, d: Disk, s: nat, w: Sector)
    requires Sound(g, |d|) && InFat(g, s)
    ensures forall t: nat :: t < |d| && !InFatArea(g, t) ==> Store(g, d, s, w)[t] == d[t]
    ensures Mirrored(g, d) ==> Mirrored(g, Store(g, d, s, w))
  {
    if Mirrored(g, d) {
      StoreKeepsMirror(g, d, s, w);
    }
  }

  /** Two adjoining one-byte patches are one two-byte patch, also across a sector border. */
  lemma PatchTwice(g: Geo, d: Disk, e: Disk, f: Disk, i: nat, b0: Byte, b1: Byte)
    requires FatPatched(g, d, e, i, [b0]) && FatPatched(g, e, f, i + 1, [b1])
    ensures FatPatched(g, d, f, i, [b0, b1])
  {
    forall k: nat | k < g.fatSize * 512
      ensures FatByte(g, f, k) == if i <= k < i + 2 then [b0, b1][k - i] else FatByte(g, d, k)
    {
      assert FatByte(g, f, k) == if i + 1 <= k < i + 2 then [b1][k - i - 1] else FatByte(g, e, k);
      assert FatByte(g, e, k) == if i <= k < i + 1 then [b0][k - i] else FatByte(g, d, k);
    }
  }

  /** The two bytes put_fat leaves for a FAT12 entry next to the old bytes o0 and o1. */
  function Packed12(c: nat, v: nat, o0: Byte, o1: Byte): (r: seq<Byte>)
    ensures |r| == 2
  {
    if c % 2 == 1 then [o0 % 16 + v % 16 * 16, v / 16 % 256] else [v % 256, o1 / 16 * 16 + v / 256 % 16]
  }

  lemma PackedReadsBack(c: nat, v: nat, o0: Byte, o1: Byte)
    ensures Value12(c, Packed12(c, v, o0, o1)[0], Packed12(c, v, o0, o1)[1]) == v % 0x1000
  {
    var q, r := v / 0x1000, v % 0x1000;
    assert v == q * 0x1000 + r;
    assert v % 16 == r % 16 && v / 16 % 256 == r / 16 by {
      assert v / 16 == q * 256 + r / 16;
    }
    assert v % 256 == r % 256 && v / 256 % 16 == r / 256 by {
      assert v / 256 == q * 16 + r / 256;
    }
  }

  /** Which bits of its two bytes an even and an odd FAT12 entry consist of. */
  lemma WordBits(b0: Byte, b1: Byte)
    ensures LdWord(b0, b1) % 0x1000 == b1 % 16 * 0x100 + b0
    ensures LdWord(b0, b1) / 16 == b1 * 16 + b0 / 16
  {
    LowBits(b0, b1);
    HighBits(b0, b1);
    hide LdWord;
  }

  lemma LowBits(b0: Byte, b1: Byte)
    ensures LdWord(b0, b1) % 0x1000 == b1 % 16 * 0x100 + b0
  {
    assert b1 * 0x100 + b0 == b1 / 16 * 0x1000 + (b1 % 16 * 0x100 + b0);
  }

  lemma HighBits(b0: Byte, b1: Byte)
    ensures LdWord(b0, b1) / 16 == b1 * 16 + b0 / 16
  {
    assert b1 * 0x100 + b0 == (b1 * 16 + b0 / 16) * 16 + b0 % 16;
  }

  lemma PackedKeepsNeighbour(c: nat, v: nat, o0: Byte, o1: Byte)
    ensures c % 2 == 1 ==> Packed12(c, v, o0, o1)[0] % 16 == o0 % 16
    ensures c % 2 == 0 ==> Packed12(c, v, o0, o1)[1] / 16 == o1 / 16
  {
  }

  /** A FAT12 entry in terms of its two bytes. */
  function Value12(c: nat, b0: Byte, b1: Byte): nat {
    if c % 2 == 1 then LdWord(b0, b1) / 16 else LdWord(b0, b1) % 0x1000
  }

  /**
   * Entry k, whose bytes were d0 and d1, after the bytes o0 and o1 of entry c were replaced:
   * c itself holds v, a neighbour sharing one byte and all others hold what they held.
   */
  lemma Value12After(c: nat, v: nat, o0: Byte, o1: Byte, k: nat, d0: Byte, d1: Byte)
    requires k == c ==> d0 == o0 && d1 == o1
    requires k + 1 == c && c % 2 == 1 ==> d1 == o0
    requires k == c + 1 && c % 2 == 0 ==> d0 == o1
    ensures var i, j, bs := c + c / 2, k + k / 2, Packed12(c, v, o0, o1);
      Value12(k, if i <= j < i + 2 then bs[j - i] else d0, if i <= j + 1 < i + 2 then bs[j + 1 - i] else d1)
        == if k == c then v % 0x1000 else Value12(k, d0, d1)
  {
    var i, j, bs := c + c / 2, k + k / 2, Packed12(c, v, o0, o1);
    WordBits(d0, d1);
    PackedReadsBack(c, v, o0, o1);
    PackedKeepsNeighbour(c, v, o0, o1);
    if k + 1 == c && c % 2 == 1 {
      assert j + 1 == i;
      WordBits(d0, bs[0]);
    } else if k == c + 1 && c % 2 == 0 {
      assert j == i + 1;
      WordBits(bs[1], d1);
    } else if k < c {
      assert j + 1 < i;
    } else if c < k {
      assert i + 1 < j;
    }
  }

  /** Patching one FAT12 entry leaves the other eleven or twelve bits of its bytes to their entries. */
  lemma Entry12After(g: Geo, d: Disk, e: Disk, c: nat, v: nat, k: nat)
    requires Sound(g, |d|) && g.fsType == Fat12 && c < g.nFatent && k < g.nFatent
    requires FatPatched(g, d, e, c + c / 2, Packed12(c, v, FatByte(g, d, c + c / 2), FatByte(g, d, c + c / 2 + 1)))
    ensures Entry(g, e, k) == if k == c then v % 0x1000 else Entry(g, d, k)
  {
    hide FatByte, Packed12, Value12, Sound, Mirrored;
    EntryInsideFat(g, |d|, c);
    EntryInsideFat(g, |d|, k);
    var i, j := c + c / 2, k + k / 2;
    var bs := Packed12(c, v, FatByte(g, d, i), FatByte(g, d, i + 1));
    assert FatByte(g, e, j) == if i <= j < i + 2 then bs[j - i] else FatByte(g, d, j);
    assert FatByte(g, e, j + 1) == if i <= j + 1 < i + 2 then bs[j + 1 - i] else FatByte(g, d, j + 1);
    Value12After(c, v, FatByte(g, d, i), FatByte(g, d, i + 1), k, FatByte(g, d, j), FatByte(g, d, j + 1));
  }

  /** FAT12: the entry reads back, every other entry is unchanged. */
  lemma Patch12StoresLink(g: Geo, d: Disk, e: Disk, c: nat, v: nat)
    requires Sound(g, |d|) && g.fsType == Fat12 && c < g.nFatent
    requires FatPatched(g, d, e, c + c / 2, Packed12(c, v, FatByte(g, d, c + c / 2), FatByte(g, d, c + c / 2 + 1)))
    ensures LinkStored(g, d, e, c, v % 0x1000, 0)
  {
    forall k | 0 <= k < g.nFatent
      ensures Entry(g, e, k) == if k == c then v % 0x1000 else Entry(g, d, k)
    {
      Entry12After(g, d, e, c, v, k);
    }
    assert Fat(g, e) == Fat(g, d)[c := v % 0x1000];
  }

  lemma Patch16StoresLink(g: Geo, d: Disk, e: Disk, c: nat, v: nat)
    requires Sound(g, |d|) && g.fsType == Fat16 && c < g.nFatent
    requires FatPatched(g, d, e, 2 * c, StWord(v))
    ensures LinkStored(g, d, e, c, v % 0x1_0000, 0)
  {
    forall k | 0 <= k < g.nFatent
      ensures Entry(g, e, k) == if k == c then v % 0x1_0000 else Entry(g, d, k)
    {
      Entry16After(g, d, e, c, v, k);
    }
    hide FatByte, Entry, Sound;
  }

  lemma Entry16After(g: Geo, d: Disk, e: Disk, c: nat, v: nat, k: nat)
    requires Sound(g, |d|) && g.fsType == Fat16 && c < g.nFatent && k < g.nFatent
    requires FatPatched(g, d, e, 2 * c, StWord(v))
    ensures Entry(g, e, k) == if k == c then v % 0x1_0000 else Entry(g, d, k)
  {
    EntryInsideFat(g, |d|, k);
    hide FatByte, Mirrored, StWord, LdWord;
    var bs := StWord(v);
    var i := 2 * k;
    assert k == c ==> FatByte(g, e, i) == bs[0] && FatByte(g, e, i + 1) == bs[1];
    assert k != c ==> FatByte(g, e, i) == FatByte(g, d, i) && FatByte(g, e, i + 1) == FatByte(g, d, i + 1);
  }

  /** The four bytes put_fat leaves for a FAT32 entry: 28 new bits below the reserved bits it found. */
  function Packed32(v: nat, top: nat): seq<Byte>
    requires v < 0x1000_0000 && top < 16
  {
    StDword(v + top * 0x1000_0000)
  }

  lemma Packed32ReadsBack(v: nat, top: nat)
    requires v < 0x1000_0000 && top < 16
    ensures var bs := Packed32(v, top);
      |bs| == 4 && LdDword(bs[0], bs[1], bs[2], bs[3]) % 0x1000_0000 == v && bs[3] / 16 == top
  {
    hide StDword;
    assert (v + top * 0x1000_0000) % 0x1_0000_0000 == v + top * 0x1000_0000;
  }

  lemma Entry32After(g: Geo, d: Disk, e: Disk, c: nat, v: nat, top: nat, k: nat)
    requires Sound(g, |d|) && g.fsType == Fat32 && c < g.nFatent && k < g.nFatent && v < 0x1000_0000 && top < 16
    requires FatPatched(g, d, e, 4 * c, Packed32(v, top))
    ensures Entry(g, e, k) == if k == c then v else Entry(g, d, k)
    ensures TopNibble(g, e, k) == if k == c then top else TopNibble(g, d, k)
  {
    Packed32ReadsBack(v, top);
    EntryInsideFat(g, |d|, k);
    FourBytes(g, d, e, c, Packed32(v, top), k);
    hide FatByte, FatPatched, Sound, Packed32, LdDword;
  }

  lemma FourBytes(g: Geo, d: Disk, e: Disk, c: nat, bs: seq<Byte>, k: nat)
    requires |bs| == 4 && FatPatched(g, d, e, 4 * c, bs) && 4 * k + 4 <= g.fatSize * 512
    ensures g.fatbase + g.fatSize <= |d| && |e| == |d|
    ensures var i := 4 * k; k == c ==>
      FatByte(g, e, i) == bs[0] && FatByte(g, e, i + 1) == bs[1] && FatByte(g, e, i + 2) == bs[2] && FatByte(g, e, i + 3) == bs[3]
    ensures var i := 4 * k; k != c ==>
      && FatByte(g, e, i) == FatByte(g, d, i) && FatByte(g, e, i + 1) == FatByte(g, d, i + 1)
      && FatByte(g, e, i + 2) == FatByte(g, d, i + 2) && FatByte(g, e, i + 3) == FatByte(g, d, i + 3)
  {
    hide FatByte, Mirrored;
    EntryInsideFat(g, |d|, 0);
  }

  /** FAT32: 28 bits and the reserved nibble read back, every other entry is unchanged. */
  lemma Patch32StoresLink(g: Geo, d: Disk, e: Disk, c: nat, v: nat, top: nat)
    requires Sound(g, |d|) && g.fsType == Fat32 && c < g.nFatent && v < 0x1000_0000 && top < 16
    requires FatPatched(g, d, e, 4 * c, Packed32(v, top))
    ensures LinkStored(g, d, e, c, v, top)
  {
    forall k: nat | k < g.nFatent
      ensures Entry(g, e, k) == if k == c then v else Entry(g, d, k)
      ensures TopNibble(g, e, k) == if k == c then top else TopNibble(g, d, k)
    {
      Entry32After(g, d, e, c, v, top, k);
    }
    assert Fat(g, e) == Fat(g, d)[c := v];
  }

  /** The bitwise or of two nibbles. */
  function OrNibble(a: nat, b: nat): (r: nat)
    ensures r < 16
    ensures a < 16 && b == 0 ==> r == a
    ensures r % 2 == 1 <==> a % 2 == 1 || b % 2 == 1
    ensures r / 2 % 2 == 1 <==> a / 2 % 2 == 1 || b / 2 % 2 == 1
    ensures r / 4 % 2 == 1 <==> a / 4 % 2 == 1 || b / 4 % 2 == 1
    ensures r / 8 == 1 <==> a / 8 % 2 == 1 || b / 8 % 2 == 1
  {
    OrBit(a, b) + 2 * OrBit(a / 2, b / 2) + 4 * OrBit(a / 4, b / 4) + 8 * OrBit(a / 8, b / 8)
  }

  function OrBit(a: nat, b: nat): nat {
    if a % 2 == 1 || b % 2 == 1 then 1 else 0
  }

  /** The reserved nibble put_fat leaves: that of val or-ed into the old one. */
  function NewNibble(g: Geo, d: Disk, c: nat, val: Dword): nat
    requires Sound(g, |d|) && c < g.nFatent
  {
    if g.fsType == Fat32 then OrNibble(TopNibble(g, d, c), val / 0x1000_0000) else 0
  }

  // ---------------------------------------------------------------- get_fat and put_fat

  /** move_window to sector k of the first FAT: the window shows the FAT bytes from 512 * k on. */
  method ShowFatSector(fs: FatFs, k: nat)
    requires fs.Valid() && k < fs.geo.fatSize
    modifies fs`disk, fs`winsect, fs`wflag, fs.win
    ensures fs.Valid() && fs.Logical() == old(fs.Logical())
    ensures InFat(fs.geo, fs.winsect) && fs.winsect == fs.geo.fatbase + k
    ensures fs.geo.fatbase + fs.geo.fatSize <= |fs.disk|
    ensures fs.win[..] == fs.Logical()[fs.winsect]
    ensures forall i: nat :: i < 512 ==> fs.win[i] == FatByte(fs.geo, fs.Logical(), 512 * k + i)
  {
    fs.MoveWindow(fs.geo.fatbase + k);
    forall i: nat | i < 512
      ensures fs.win[i] == FatByte(fs.geo, fs.Logical(), 512 * k + i)
    {
      assert fs.win[i] == fs.win[..][i];
    }
  }

  /** move_window to the sector of byte i of the FAT: the byte stands at offset p of the window. */
  method ShowFatByte(fs: FatFs, i: nat) returns (p: nat)
    requires fs.Valid() && i < fs.geo.fatSize * 512
    modifies fs`disk, fs`winsect, fs`wflag, fs.win
    ensures fs.Valid() && fs.Logical() == old(fs.Logical())
    ensures InFat(fs.geo, fs.winsect) && p < 512 && 512 * (fs.winsect - fs.geo.fatbase) + p == i
    ensures fs.geo.fatbase + fs.geo.fatSize <= |fs.disk|
    ensures fs.win[..] == fs.Logical()[fs.winsect] && fs.win[p] == FatByte(fs.geo, fs.Logical(), i)
  {
    hide FatByte, Sound;
    ShowFatSector(fs, i / 512);
    p := i % 512;
  }

  /** Where the bytes of an entry lie in its sector. */
  lemma EntryOffsets(c: nat)
    ensures c * 2 % 512 + 1 < 512 && 512 * (c / 256) + c * 2 % 512 == 2 * c
    ensures c * 4 % 512 + 3 < 512 && 512 * (c / 128) + c * 4 % 512 == 4 * c
  {
    Arith.DivUnique(c * 2, 512, c / 256, c % 256 * 2);
    Arith.DivUnique(c * 4, 512, c / 128, c % 128 * 4);
  }

  /** get_fat: 1 for a number outside 2..n_fatent-1, otherwise the link; the logical disk is only looked at. */
  method GetFat(fs: FatFs, clst: nat) returns (r: nat)
    requires fs.Valid()
    modifies fs`disk, fs`winsect, fs`wflag, fs.win
    ensures fs.Valid() && fs.Logical() == old(fs.Logical())
    ensures r == if clst < 2 || clst >= fs.geo.nFatent then 1 else Entry(fs.geo, fs.Logical(), clst)
  {
    hide FatByte, Sound, Value12, LdWord, LdDword;
    if clst < 2 || clst >= fs.geo.nFatent {
      return 1;
    }
    EntryInsideFat(fs.geo, |fs.disk|, clst);
    match fs.geo.fsType {
      case Fat12 =>
        r := GetFat12(fs, clst);
      case Fat16 =>
        EntryOffsets(clst);
        ShowFatSector(fs, clst / 256);
        var p := clst * 2 % 512;
        r := LdWord(fs.win[p], fs.win[p + 1]);
      case Fat32 =>
        EntryOffsets(clst);
        ShowFatSector(fs, clst / 128);
        var p := clst * 4 % 512;
        r := LdDword(fs.win[p], fs.win[p + 1], fs.win[p + 2], fs.win[p + 3]) % 0x1000_0000;
    }
  }

  /** The FAT12 case: the two bytes of the entry may lie in different sectors. */
  method GetFat12(fs: FatFs, clst: nat) returns (r: nat)
    requires fs.Valid() && fs.geo.fsType == Fat12 && clst < fs.geo.nFatent
    modifies fs`disk, fs`winsect, fs`wflag, fs.win
    ensures fs.Valid() && fs.Logical() == old(fs.Logical())
    ensures r == Entry(fs.geo, fs.Logical(), clst)
  {
    hide FatByte, Sound;
    EntryInsideFat(fs.geo, |fs.disk|, clst);
    hide FatFs.Valid, FatFs.Logical;
    var bc := clst + clst / 2;
    var p := ShowFatByte(fs, bc);
    var lo := fs.win[p];
    bc := bc + 1;
    p := ShowFatByte(fs, bc);
    var wc := LdWord(lo, fs.win[p]);
    r := if clst % 2 == 1 then wc / 16 else wc % 0x1000;
    hide LdWord;
  }

  /** Storing bytes in the FAT sector the window shows. */
  method PatchFatSector(fs: FatFs, at: nat, bs: seq<Byte>)
    requires fs.Valid() && InFat(fs.geo, fs.winsect) && at + |bs| <= 512
    requires fs.win[..] == fs.Logical()[fs.winsect]
    modifies fs`wflag, fs.win
    ensures fs.Valid()
    ensures FatPatched(fs.geo, old(fs.Logical()), fs.Logical(), 512 * (fs.winsect - fs.geo.fatbase) + at, bs)
  {
    hide FatByte, Mirrored, Store;
    ghost var d := fs.Logical();
    StoreIsPatch(fs.geo, d, fs.winsect, at, bs);
    fs.Patch(at, bs);
  }

  /** put_fat: the FAT becomes the same array with one link replaced; an invalid number is refused. */
  method PutFat(fs: FatFs, clst: nat, val: Dword) returns (ok: bool)
    requires fs.Valid()
    modifies fs`disk, fs`winsect, fs`wflag, fs.win
    ensures fs.Valid()
    ensures ok == (2 <= clst < fs.geo.nFatent)
    ensures !ok ==> fs.Logical() == old(fs.Logical())
    ensures ok ==>
      LinkStored(fs.geo, old(fs.Logical()), fs.Logical(), clst, val % EntryRange(fs.geo.fsType),
                 NewNibble(fs.geo, old(fs.Logical()), clst, val))
  {
    hide FatByte, Sound, LdDword, FatPatched, LinkStored, StWord, StDword, OrNibble;
    if clst < 2 || clst >= fs.geo.nFatent {
      return false;
    }
    ghost var d := fs.Logical();
    EntryInsideFat(fs.geo, |fs.disk|, clst);
    EntryOffsets(clst);
    hide FatFs.Valid, FatFs.Logical, LdWord;
    match fs.geo.fsType {
      case Fat12 =>
        PutFat12(fs, clst, val);
      case Fat16 =>
        ShowFatSector(fs, clst / 256);
        PatchFatSector(fs, clst * 2 % 512, StWord(val));
        Patch16StoresLink(fs.geo, d, fs.Logical(), clst, val);
      case Fat32 =>
        ShowFatSector(fs, clst / 128);
        var p := clst * 4 % 512;
        var top := OrNibble(fs.win[p + 3] / 16, val / 0x1000_0000);
        PatchFatSector(fs, p, Packed32(val % 0x1000_0000, top));
        Patch32StoresLink(fs.geo, d, fs.Logical(), clst, val % 0x1000_0000, top);
    }
    return true;
  }

  /** The two halves of put_fat's FAT12 case together store the link. */
  lemma HalvesStoreLink(g: Geo, d: Disk, e: Disk, f: Disk, c: nat, v: nat, b0: Byte, b1: Byte)
    requires Sound(g, |d|) && g.fsType == Fat12 && c < g.nFatent
    requires FatPatched(g, d, e, c + c / 2, [b0]) && FatPatched(g, e, f, c + c / 2 + 1, [b1])
    requires b0 == if c % 2 == 1 then FatByte(g, d, c + c / 2) % 16 + v % 16 * 16 else v % 256
    requires b1 == if c % 2 == 1 then v / 16 % 256 else FatByte(g, e, c + c / 2 + 1) / 16 * 16 + v / 256 % 16
    ensures LinkStored(g, d, f, c, v % 0x1000, 0)
  {
    hide FatByte, Sound, Mirrored, LinkStored, Value12;
    EntryInsideFat(g, |d|, c);
    var i := c + c / 2;
    assert FatByte(g, e, i + 1) == FatByte(g, d, i + 1);
    assert [b0, b1] == Packed12(c, v, FatByte(g, d, i), FatByte(g, d, i + 1));
    PatchTwice(g, d, e, f, i, b0, b1);
    Patch12StoresLink(g, d, f, c, v);
  }

  /** The FAT12 case: one byte at a time, with a possible write-back of the first sector in between. */
  method PutFat12(fs: FatFs, clst: nat, val: nat)
    requires fs.Valid() && fs.geo.fsType == Fat12 && clst < fs.geo.nFatent
    modifies fs`disk, fs`winsect, fs`wflag, fs.win
    ensures fs.Valid()
    ensures LinkStored(fs.geo, old(fs.Logical()), fs.Logical(), clst, val % 0x1000, 0)
  {
    hide FatByte, Sound, FatPatched, LinkStored;
    ghost var d := fs.Logical();
    EntryInsideFat(fs.geo, |d|, clst);
    hide FatFs.Valid, FatFs.Logical, LdWord;
    var bc := clst + clst / 2;
    var p := ShowFatByte(fs, bc);
    var b0 := if clst % 2 == 1 then fs.win[p] % 16 + val % 16 * 16 else val % 256;
    PatchFatSector(fs, p, [b0]);
    ghost var e := fs.Logical();
    bc := bc + 1;
    p := ShowFatByte(fs, bc);
    var b1 := if clst % 2 == 1 then val / 16 % 256 else fs.win[p] / 16 * 16 + val / 256 % 16;
    PatchFatSector(fs, p, [b1]);
    HalvesStoreLink(fs.geo, d, e, fs.Logical(), clst, val, b0, b1);
  }
}

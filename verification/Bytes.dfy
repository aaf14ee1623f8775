/** Bytes, sectors and the memory helpers every layer of the file system uses. */
module Bytes {

  datatype Option<+T> = None | Some(value: T)

  type Byte = b: int | 0 <= b < 0x100

  /** The build fixes the sector size at 512 bytes (_MAX_SS). */
  type Sector = s: seq<Byte> | |s| == 512 witness seq(512, i => 0)

  type Disk = seq<Sector>

  type Word = w: nat | w < 0x1_0000
  type Dword = w: nat | w < 0x1_0000_0000

  function ZeroSector(): Sector {
    seq(512, i => 0)
  }

  /** `s` with `t` laid over it from index `at` on. */
  function Splice(s: seq<Byte>, at: nat, t: seq<Byte>): (r: seq<Byte>)
    requires at + |t| <= |s|
    ensures |r| == |s|
    ensures forall i :: 0 <= i < |s| ==> r[i] == if at <= i < at + |t| then t[i - at] else s[i]
  {
    s[..at] + t + s[at + |t|..]
  }

  /** Little-endian loads: LD_WORD and LD_DWORD. */
  function LdWord(b0: Byte, b1: Byte): Word
  {
    b1 * 0x100 + b0
  }

  function LdDword(b0: Byte, b1: Byte, b2: Byte, b3: Byte): Dword
  {
    b3 * 0x100_0000 + b2 * 0x1_0000 + b1 * 0x100 + b0
  }

  /** Little-endian stores: ST_WORD and ST_DWORD keep the low 16 and 32 bits. */
  function StWord(v: nat): (r: seq<Byte>)
    ensures |r| == 2 && LdWord(r[0], r[1]) == v % 0x1_0000
  {
    WordHalves(v);
    [v % 0x100, v / 0x100 % 0x100]
  }

  lemma WordHalves(v: nat)
    ensures v % 0x1_0000 == v / 0x100 % 0x100 * 0x100 + v % 0x100
  {
    var q, r := v / 0x1_0000, v % 0x1_0000;
    assert v / 0x100 == q * 0x100 + r / 0x100;
  }

  function StDword(v: nat): (r: seq<Byte>)
    ensures |r| == 4 && LdDword(r[0], r[1], r[2], r[3]) == v % 0x1_0000_0000
  {
    DwordHalves(v);
    StWord(v) + StWord(v / 0x1_0000)
  }

  lemma DwordHalves(v: nat)
    ensures v % 0x1_0000_0000 == v / 0x1_0000 % 0x1_0000 * 0x1_0000 + v % 0x1_0000
  {
    var q, r := v / 0x1_0000_0000, v % 0x1_0000_0000;
    assert v / 0x1_0000 == q * 0x1_0000 + r / 0x1_0000;
    assert v % 0x1_0000 == r % 0x1_0000;
  }

  /** mem_cpy into a buffer. */
  method MemCpy(dst: array<Byte>, at: nat, src: seq<Byte>)
    requires at + |src| <= dst.Length
    modifies dst
    ensures dst[..] == Splice(old(dst[..]), at, src)
  {
    for i := 0 to |src|
      invariant forall k :: 0 <= k < dst.Length ==>
        dst[k] == if at <= k < at + i then src[k - at] else old(dst[k])
    {
      dst[at + i] := src[i];
    }
  }

  /** mem_set on a buffer. */
  method MemSet(dst: array<Byte>, at: nat, val: Byte, cnt: nat)
    requires at + cnt <= dst.Length
    modifies dst
    ensures dst[..] == Splice(old(dst[..]), at, seq(cnt, i => val))
  {
    for i := 0 to cnt
      invariant forall k :: 0 <= k < dst.Length ==>
        dst[k] == if at <= k < at + i then val else old(dst[k])
    {
      dst[at + i] := val;
    }
  }
}

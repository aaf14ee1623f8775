/** What chk_mounted derives from a boot record, and the layout that makes it safe to use. */
module Geometry {
  import opened Bytes
  import Arith

  datatype FatType = Fat12 | Fat16 | Fat32

  /** The FATFS members that are fixed while a volume is mounted. */
  datatype Geo = Geo(
    fsType: FatType,
    csize: nat,     // sectors per cluster
    nFats: nat,     // FAT copies
    nRootdir: nat,  // entries of the static root directory (FAT12/16)
    nFatent: nat,   // FAT entries, clusters + 2
    fatSize: nat,   // sectors per FAT
    fatbase: nat,   // first FAT sector
    dirbase: nat,   // root directory: first sector, on FAT32 first cluster
    database: nat)  // first data sector

  /** b && !(b & (b - 1)) on a byte; `PowerOfTwoBits` is the link to the bit test. */
  predicate PowerOfTwo(b: nat) {
    b == 1 || b == 2 || b == 4 || b == 8 || b == 16 || b == 32 || b == 64 || b == 128
  }

  function W32(x: nat): (r: nat)
    ensures r < 0x1_0000_0000
    ensures x < 0x1_0000_0000 ==> r == x
    ensures 0x1_0000_0000 <= x < 0x2_0000_0000 ==> r == x - 0x1_0000_0000
  {
    x % 0x1_0000_0000
  }

  // ---------------------------------------------------------------- the boot record

  /** The fields of the BIOS parameter block that chk_mounted looks at. */
  datatype Bpb = Bpb(
    bytesPerSec: Word, secPerClus: Byte, rsvdSecCnt: Word, numFats: Byte, rootEntCnt: Word,
    totSec16: Word, totSec32: Dword, fatSz16: Word, fatSz32: Dword, rootClus: Dword)
  {
    function TotalSectors(): Dword { if totSec16 != 0 then totSec16 else totSec32 }
    function SectorsPerFat(): Dword { if fatSz16 != 0 then fatSz16 else fatSz32 }

    /** Number of reserved, FAT and root-directory sectors, in 32-bit arithmetic. */
    function SystemSectors(): Dword {
      W32(rsvdSecCnt + W32(SectorsPerFat() * numFats) + rootEntCnt / 16)
    }
  }

  /** The block at its byte offsets in a boot sector. */
  function ReadBpb(b: Sector): Bpb {
    Bpb(LdWord(b[11], b[12]), b[13], LdWord(b[14], b[15]), b[16], LdWord(b[17], b[18]),
        LdWord(b[19], b[20]), LdDword(b[32], b[33], b[34], b[35]),
        LdWord(b[22], b[23]), LdDword(b[36], b[37], b[38], b[39]),
        LdDword(b[44], b[45], b[46], b[47]))
  }

  /** Sub-type boundaries: 4086 and 65526 clusters, not the 4085 and 65525 of the FAT specification. */
  function SubType(nclst: nat): FatType {
    if nclst >= 65526 then Fat32 else if nclst >= 4086 then Fat16 else Fat12
  }

  /** Bytes one FAT needs. */
  function FatBytes(t: FatType, n: nat): nat {
    match t
    case Fat12 => n * 3 / 2 + n % 2
    case Fat16 => n * 2
    case Fat32 => n * 4
  }

  /** Whole clusters in the sectors behind the system areas. */
  function ClusterCount(b: Bpb): nat {
    if b.secPerClus == 0 || b.TotalSectors() < b.SystemSectors() then 0
    else (b.TotalSectors() - b.SystemSectors()) / b.secPerClus
  }

  /** The geometry part of chk_mounted: every rejection, and the members of an accepted volume. */
  function MountGeometry(b: Bpb, bsect: Dword): Option<Geo> {
    if b.bytesPerSec != 512 then None
    else if b.numFats != 1 && b.numFats != 2 then None
    else if !PowerOfTwo(b.secPerClus) then None
    else if b.rootEntCnt % 16 != 0 then None
    else if b.rsvdSecCnt == 0 then None
    else if b.TotalSectors() < b.SystemSectors() then None
    else
      var nclst := ClusterCount(b);
      var fmt := SubType(nclst);
      var n := W32(nclst + 2);
      var fatbase := W32(bsect + b.rsvdSecCnt);
      if nclst == 0 then None
      else if (fmt == Fat32) != (b.rootEntCnt == 0) then None
      else if b.SectorsPerFat() < W32(W32(FatBytes(fmt, n)) + 511) / 512 then None
      else
        Some(Geo(fmt, b.secPerClus, b.numFats, b.rootEntCnt, n, b.SectorsPerFat(), fatbase,
                 if fmt == Fat32 then b.rootClus else W32(fatbase + W32(b.SectorsPerFat() * b.numFats)),
                 W32(bsect + b.SystemSectors())))
  }

  // ---------------------------------------------------------------- a sound layout

  /** Sectors of all FAT copies together. */
  function FatArea(g: Geo): nat {
    if g.nFats == 2 then 2 * g.fatSize else g.fatSize
  }

  /**
   * A layout on a device of `total` sectors: reserved sectors, FAT copies, static root directory
   * and data area follow one another without overlap and end inside the device.
   */
  ghost predicate Sound(g: Geo, total: nat) {
    && PowerOfTwo(g.csize)
    && 1 <= g.nFats <= 2
    && 1 <= g.fatSize
    && 1 <= g.fatbase
    && g.nRootdir % 16 == 0 && g.nRootdir < 0x1_0000
    && g.database == g.fatbase + FatArea(g) + g.nRootdir / 16
    && (g.fsType == Fat32 <==> g.nRootdir == 0)
    && (g.fsType != Fat32 ==> g.dirbase == g.fatbase + FatArea(g))
    && 3 <= g.nFatent
    && (g.fsType == Fat12 ==> g.nFatent <= 0xFF7)
    && (g.fsType == Fat16 ==> g.nFatent <= 0xFFF7)
    && g.nFatent <= 0x0FFFFFF7
    && FatBytes(g.fsType, g.nFatent) <= g.fatSize * 512
    && g.database < g.database + (g.nFatent - 2) * g.csize <= total
  }

  /** Reserved, FAT and root-directory sectors before the 32-bit sum is cut off. */
  function TrueSystemSectors(b: Bpb): nat {
    b.rsvdSecCnt + (if b.numFats == 2 then 2 * b.SectorsPerFat() else b.SectorsPerFat()) + b.rootEntCnt / 16
  }

  lemma SystemSectorsExact(b: Bpb)
    requires b.numFats == 1 || b.numFats == 2
    ensures TrueSystemSectors(b) < 0x1_0000_0000 ==> b.SystemSectors() == TrueSystemSectors(b)
    ensures TrueSystemSectors(b) < 0x1_0000_0000 ==>
      W32(b.SectorsPerFat() * b.numFats) == if b.numFats == 2 then 2 * b.SectorsPerFat() else b.SectorsPerFat()
  {
  }

  /** A sum that fits gives an accepted volume a sound layout behind its boot record. */
  lemma FittingIsSound(b: Bpb, bsect: Dword)
    requires MountGeometry(b, bsect).Some?
    requires bsect + b.TotalSectors() <= 0x1_0000_0000
    requires ClusterCount(b) + 2 <= 0x0FFFFFF7
    requires TrueSystemSectors(b) < 0x1_0000_0000
    ensures bsect < MountGeometry(b, bsect).value.fatbase
    ensures Sound(MountGeometry(b, bsect).value, bsect + b.TotalSectors())
  {
    SystemSectorsExact(b);
    Arith.DivMod(b.TotalSectors() - b.SystemSectors(), b.secPerClus);
    Arith.MulAtLeast(ClusterCount(b), b.secPerClus);
  }

  /** A sum that wraps puts the data area in front of the end of the FATs, or the FATs in front of the boot record. */
  lemma WrappedIsUnsound(b: Bpb, bsect: Dword, total: nat)
    requires MountGeometry(b, bsect).Some?
    requires TrueSystemSectors(b) >= 0x1_0000_0000
    ensures var g := MountGeometry(b, bsect).value;
      && (bsect < g.fatbase ==> g.database < g.fatbase + FatArea(g))
      && !(bsect < g.fatbase && Sound(g, total))
  {
  }

  /**
   * For an accepted boot record on a volume that ends below 2^32 and has no reserved cluster
   * numbers, the layout is sound and lies between the boot record and the end of the volume
   * exactly when the sum of the system areas does not wrap.
   */
  lemma AcceptedIsSound(b: Bpb, bsect: Dword)
    requires MountGeometry(b, bsect).Some?
    requires bsect + b.TotalSectors() <= 0x1_0000_0000
    requires ClusterCount(b) + 2 <= 0x0FFFFFF7
    ensures TrueSystemSectors(b) < 0x1_0000_0000 <==>
      var g := MountGeometry(b, bsect).value;
      bsect < g.fatbase && Sound(g, bsect + b.TotalSectors())
  {
    if TrueSystemSectors(b) < 0x1_0000_0000 {
      FittingIsSound(b, bsect);
    } else {
      WrappedIsUnsound(b, bsect, bsect + b.TotalSectors());
    }
  }

  /** A boot record that is accepted although its two FATs of 2^31 sectors wrap the sum to zero. */
  lemma WrappedIsAccepted()
    ensures var b := Bpb(512, 1, 32, 2, 0, 0, 100_000, 0, 0x8000_0000, 2);
      && MountGeometry(b, 0).Some?
      && TrueSystemSectors(b) >= 0x1_0000_0000
      && !Sound(MountGeometry(b, 0).value, 100_000)
  {
    var b := Bpb(512, 1, 32, 2, 0, 0, 100_000, 0, 0x8000_0000, 2);
    assert b.SystemSectors() == 32;
    assert ClusterCount(b) == 99_968;
  }

  /** An ordinary small volume: 100 sectors, two FATs of one sector, 16 root entries, one sector per cluster. */
  lemma PlainIsAccepted()
    ensures var b := Bpb(512, 1, 1, 2, 16, 100, 0, 1, 0, 0);
      && MountGeometry(b, 0) == Some(Geo(Fat12, 1, 2, 16, 98, 1, 1, 3, 4))
      && Sound(MountGeometry(b, 0).value, 100)
  {
  }

  // ---------------------------------------------------------------- what an accepted record means

  /** A boot sector with the fields of b stored where the formatter stores them. */
  predicate Stores(s: Sector, b: Bpb) {
    && s[11..13] == StWord(b.bytesPerSec) && s[13] == b.secPerClus && s[14..16] == StWord(b.rsvdSecCnt)
    && s[16] == b.numFats && s[17..19] == StWord(b.rootEntCnt) && s[19..21] == StWord(b.totSec16)
    && s[22..24] == StWord(b.fatSz16) && s[32..36] == StDword(b.totSec32)
    && s[36..40] == StDword(b.fatSz32) && s[44..48] == StDword(b.rootClus)
  }

  /** What was stored is what is read. */
  lemma StoredIsRead(s: Sector, b: Bpb)
    requires Stores(s, b)
    ensures ReadBpb(s) == b
  {
    WordAt(s, 11, b.bytesPerSec);
    WordAt(s, 14, b.rsvdSecCnt);
    WordAt(s, 17, b.rootEntCnt);
    WordAt(s, 19, b.totSec16);
    WordAt(s, 22, b.fatSz16);
    DwordAt(s, 32, b.totSec32);
    DwordAt(s, 36, b.fatSz32);
    DwordAt(s, 44, b.rootClus);
    hide StWord, StDword, LdWord, LdDword;
  }

  lemma WordAt(s: Sector, i: nat, v: Word)
    requires i + 2 <= 512 && s[i..i + 2] == StWord(v)
    ensures LdWord(s[i], s[i + 1]) == v
  {
    hide StWord;
    var t := s[i..i + 2];
    assert t[0] == s[i] && t[1] == s[i + 1];
  }

  /** A stored dword reads back. */
  lemma DwordAt(s: Sector, i: nat, v: Dword)
    requires i + 4 <= 512 && s[i..i + 4] == StDword(v)
    ensures LdDword(s[i], s[i + 1], s[i + 2], s[i + 3]) == v
  {
    hide StDword;
    var t := s[i..i + 4];
    assert t[0] == s[i] && t[1] == s[i + 1] && t[2] == s[i + 2] && t[3] == s[i + 3];
  }

  /** n clusters, and no more, fit behind the system areas. */
  predicate Fills(b: Bpb, n: nat) {
    TrueSystemSectors(b) + n * b.secPerClus <= b.TotalSectors() < TrueSystemSectors(b) + (n + 1) * b.secPerClus
  }

  /** The type a volume of n clusters has. */
  predicate TypeOf(t: FatType, n: nat) {
    (t == Fat12 <==> n <= 4085) && (t == Fat32 <==> 65526 <= n)
  }

  /** The last entry of a FAT for n clusters ends inside the sectors of one FAT, rounded up to whole sectors. */
  predicate FatHolds(b: Bpb, t: FatType, n: nat) {
    EntryByte(t, n + 1) + EntryWidth(t) <= b.SectorsPerFat() * 512
  }

  /** The record describes a volume with a FAT of type t and n clusters. */
  predicate Describes(b: Bpb, t: FatType, n: nat) {
    && b.bytesPerSec == 512 && 1 <= b.numFats <= 2 && 1 <= b.rsvdSecCnt && PowerOfTwo(b.secPerClus)
    && b.rootEntCnt % 16 == 0 && (b.rootEntCnt == 0 <==> t == Fat32)
    && 0 < n && Fills(b, n) && TypeOf(t, n) && FatHolds(b, t, n)
  }

  /** FatBytes is where the last entry ends. */
  lemma FatBytesExact(t: FatType, n: nat)
    requires 0 < n
    ensures FatBytes(t, n) == EntryByte(t, n - 1) + EntryWidth(t)
  {
    if t == Fat12 {
      var h := n / 2;
      if n % 2 == 0 {
        assert n * 3 == 3 * h * 2 && (n - 1) / 2 == h - 1;
      } else {
        assert n * 3 == (3 * h + 1) * 2 + 1 && (n - 1) / 2 == h;
      }
    }
  }

  lemma FillsOnce(b: Bpb, n: nat)
    requires 0 < b.secPerClus && TrueSystemSectors(b) == b.SystemSectors() <= b.TotalSectors()
    ensures Fills(b, n) <==> n == ClusterCount(b)
  {
    var room := b.TotalSectors() - b.SystemSectors();
    Arith.DivMod(room, b.secPerClus);
    assert (n + 1) * b.secPerClus == n * b.secPerClus + b.secPerClus;
    if Fills(b, n) {
      Arith.DivUnique(room, b.secPerClus, n, room - n * b.secPerClus);
    }
  }

  /** Which records are accepted: for sums that fit, exactly those that describe a volume. */
  lemma AcceptedIsDescribed(b: Bpb, bsect: Dword)
    requires TrueSystemSectors(b) < 0x1_0000_0000 && ClusterCount(b) + 2 <= 0x0FFFFFF7
    ensures MountGeometry(b, bsect).Some? <==> exists t: FatType, n: nat :: Describes(b, t, n)
  {
    var n := ClusterCount(b);
    if MountGeometry(b, bsect).Some? {
      DescribedByAccepted(b, bsect);
    }
    if t: FatType, m: nat :| Describes(b, t, m) {
      SystemSectorsExact(b);
      Arith.MulMono(0, m, b.secPerClus);
      FillsOnce(b, m);
      FatBytesExact(t, n + 2);
    }
  }

  lemma DescribedByAccepted(b: Bpb, bsect: Dword)
    requires TrueSystemSectors(b) < 0x1_0000_0000 && ClusterCount(b) + 2 <= 0x0FFFFFF7
    requires MountGeometry(b, bsect).Some?
    ensures Describes(b, MountGeometry(b, bsect).value.fsType, ClusterCount(b))
  {
    SystemSectorsExact(b);
    FillsOnce(b, ClusterCount(b));
    FatBytesExact(MountGeometry(b, bsect).value.fsType, ClusterCount(b) + 2);
  }

  /** What an accepted record of a volume ending below 2^32 is mounted as. */
  lemma MountedAsDescribed(b: Bpb, bsect: Dword)
    requires MountGeometry(b, bsect).Some? && bsect + b.TotalSectors() <= 0x1_0000_0000
    requires TrueSystemSectors(b) < 0x1_0000_0000 && ClusterCount(b) + 2 <= 0x0FFFFFF7
    ensures var g := MountGeometry(b, bsect).value;
      && Describes(b, g.fsType, g.nFatent - 2)
      && g.csize == b.secPerClus && g.nFats == b.numFats && g.nRootdir == b.rootEntCnt
      && g.fatSize == b.SectorsPerFat() && g.fatbase == bsect + b.rsvdSecCnt
      && g.database == bsect + TrueSystemSectors(b)
      && g.dirbase == (if g.fsType == Fat32 then b.rootClus else g.database - g.nRootdir / 16)
      && g.database + (g.nFatent - 2) * g.csize <= bsect + b.TotalSectors() < g.database + (g.nFatent - 1) * g.csize
      && (g.fsType == Fat12 <==> g.nFatent <= 0xFF7) && (g.fsType == Fat32 <==> g.nFatent > 0xFFF7)
  {
    SystemSectorsExact(b);
    DescribedByAccepted(b, bsect);
    FittingIsSound(b, bsect);
  }

  // ---------------------------------------------------------------- clusters

  /** clust2sect: 0 for an invalid cluster number. */
  function Clust2Sect(g: Geo, c: nat): nat {
    if c < 2 || c >= g.nFatent then 0 else (c - 2) * g.csize + g.database
  }

  /** The cluster a data-area sector belongs to. */
  function ClusterOf(g: Geo, s: nat): nat
    requires 0 < g.csize && g.database <= s
  {
    (s - g.database) / g.csize + 2
  }

  /** clust2sect answers 0 exactly for a number that is no cluster. */
  lemma NoSector(g: Geo, total: nat, c: nat)
    requires Sound(g, total)
    ensures Clust2Sect(g, c) == 0 <==> c < 2 || c >= g.nFatent
  {
    if 2 <= c < g.nFatent {
      ClusterSector(g, total, c, 0);
    }
  }

  /** Sector j of a cluster lies in the data area, inside the device, and names its cluster and j. */
  lemma ClusterSector(g: Geo, total: nat, c: nat, j: nat)
    requires Sound(g, total) && 2 <= c < g.nFatent && j < g.csize
    ensures g.database <= Clust2Sect(g, c) + j < total
    ensures ClusterOf(g, Clust2Sect(g, c) + j) == c
  {
    Arith.DivUnique((c - 2) * g.csize + j, g.csize, c - 2, j);
    Arith.MulGap(c - 2, g.nFatent - 2, g.csize);
  }

  /** Different clusters occupy disjoint sector ranges. */
  lemma ClustersDisjoint(g: Geo, total: nat, c: nat, j: nat, d: nat, k: nat)
    requires Sound(g, total) && 2 <= c < g.nFatent && 2 <= d < g.nFatent && j < g.csize && k < g.csize
    ensures Clust2Sect(g, c) + j == Clust2Sect(g, d) + k <==> c == d && j == k
  {
    ClusterSector(g, total, c, j);
    ClusterSector(g, total, d, k);
  }

  /** First byte of an entry in the FAT, and the number of bytes that hold it. */
  function EntryByte(t: FatType, c: nat): nat {
    match t
    case Fat12 => c + c / 2
    case Fat16 => 2 * c
    case Fat32 => 4 * c
  }

  function EntryWidth(t: FatType): nat {
    if t == Fat32 then 4 else 2
  }

  /** Every byte get_fat and put_fat touch lies inside one FAT. */
  lemma EntryInsideFat(g: Geo, total: nat, c: nat)
    requires Sound(g, total) && c < g.nFatent
    ensures EntryByte(g.fsType, c) + EntryWidth(g.fsType) <= g.fatSize * 512
    ensures g.fatbase + g.fatSize <= total
  {
  }

  // ---------------------------------------------------------------- masks

  /** The power-of-two test of chk_mounted on a byte. */
  lemma PowerOfTwoBits(b: bv8)
    ensures b != 0 && b & (b - 1) == 0 <==>
      b == 1 || b == 2 || b == 4 || b == 8 || b == 16 || b == 32 || b == 64 || b == 128
    ensures b != 0 && b & (b - 1) == 0 <==> PowerOfTwo(b as nat)
  {
  }

  /** Masking with csize - 1, as the file and directory code does, is taking the remainder by csize. */
  lemma MaskIsRemainder(x: bv32)
    ensures x & 0 == x % 1 && x & 1 == x % 2 && x & 3 == x % 4 && x & 7 == x % 8
    ensures x & 15 == x % 16 && x & 31 == x % 32 && x & 63 == x % 64 && x & 127 == x % 128
  {
  }
}

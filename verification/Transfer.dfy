/** Moving file data between a caller's buffer, the window and the device. */
module Transfer {
  import opened Bytes
  import opened Geometry
  import opened Window
  import opened FileData

  /**
   * The direct transfer of f_write: whole sectors go straight to the device, and a window that
   * shows one of them is refilled.
   */
  method WriteRun(fs: FatFs, sect: nat, data: seq<Byte>)
    requires fs.Valid() && |data| % 512 == 0 && 0 < |data|
    requires fs.geo.database <= sect && sect + |data| / 512 <= |fs.disk|
    modifies fs`disk, fs`wflag, fs.win
    ensures fs.Valid() && |fs.disk| == old(|fs.disk|)
    ensures fs.Logical() == PutRun(old(fs.Logical()), sect, data)
    ensures sect <= fs.winsect < sect + |data| / 512 ==> !fs.wflag
  {
    SoundCsize(fs.geo, |fs.disk|);
    hide Sound, Mirrored;
    ghost var was := fs.Logical();
    var cc := |data| / 512;
    fs.disk := PutRun(fs.disk, sect, data);
    if sect <= fs.winsect < sect + cc {
      MemCpy(fs.win, 0, data[(fs.winsect - sect) * 512..(fs.winsect - sect) * 512 + 512]);
      fs.wflag := false;
      assert fs.win[..] == fs.disk[fs.winsect];
    }
    assert fs.Logical() == PutRun(was, sect, data);
  }

  /**
   * A partial sector goes through the window. At the growing edge of a file the window is only
   * renamed, so the rest of the sector is whatever the window held.
   */
  method WritePart(fs: FatFs, sect: nat, off: nat, src: seq<Byte>, grow: bool) returns (ghost w: Sector)
    requires fs.Valid() && fs.geo.database <= sect < |fs.disk| && off + |src| <= 512
    modifies fs`disk, fs`winsect, fs`wflag, fs.win
    ensures fs.Valid() && |fs.disk| == old(|fs.disk|)
    ensures fs.Logical() == old(fs.Logical())[sect := w]
    ensures SectorPut(old(fs.Logical())[sect], w, off, src, !grow)
  {
    SoundCsize(fs.geo, |fs.disk|);
    hide Sound, Mirrored;
    ghost var was := fs.Logical();
    if grow {
      // the window already shows `sect` for the move_window that follows in the source
      fs.MoveWindow(0);
      fs.winsect := sect;
    } else {
      fs.MoveWindow(sect);
    }
    ghost var d := fs.disk;
    MemCpy(fs.win, off, src);
    fs.wflag := true;
    w := fs.win[..];
  }

  /** Laying a dirty sector over what was read from the device gives the logical bytes. */
  lemma OverlaidRun(d: Disk, t: nat, w: Sector, s: nat, cc: nat)
    requires s + cc <= |d| && s <= t < s + cc
    ensures Splice(RunBytes(d, s, cc), (t - s) * 512, w) == RunBytes(d[t := w], s, cc)
  {
    var r := Splice(RunBytes(d, s, cc), (t - s) * 512, w);
    forall j | 0 <= j < cc * 512
      ensures r[j] == RunBytes(d[t := w], s, cc)[j]
    {
      RunPosition(j, t - s, 1);
    }
  }

  lemma OtherSectorsSame(d: Disk, e: Disk, s: nat, cc: nat)
    requires s + cc <= |d| == |e| && forall t :: s <= t < s + cc ==> e[t] == d[t]
    ensures RunBytes(e, s, cc) == RunBytes(d, s, cc)
  {
  }

  /** The logical bytes of a run of data sectors: those on the device, a dirty one from the window. */
  lemma LogicalRun(fs: FatFs, sect: nat, cc: nat)
    requires fs.Valid() && fs.geo.database <= sect && sect + cc <= |fs.disk|
    ensures |fs.Logical()| == |fs.disk| && fs.win.Length == 512
    ensures RunBytes(fs.Logical(), sect, cc)
      == if fs.wflag && sect <= fs.winsect < sect + cc
         then Splice(RunBytes(fs.disk, sect, cc), (fs.winsect - sect) * 512, fs.win[..])
         else RunBytes(fs.disk, sect, cc)
  {
    LogicalSectors(fs);
    hide *;
    if fs.wflag && sect <= fs.winsect < sect + cc {
      OverlaidRun(fs.disk, fs.winsect, fs.win[..], sect, cc);
      OtherSectorsSame(fs.disk[fs.winsect := fs.win[..]], fs.Logical(), sect, cc);
    } else {
      OtherSectorsSame(fs.disk, fs.Logical(), sect, cc);
    }
  }

  /** In the data area only the sector of a dirty window differs from the device. */
  lemma LogicalSectors(fs: FatFs)
    requires fs.Valid()
    ensures |fs.Logical()| == |fs.disk| && fs.win.Length == 512 && fs.winsect < |fs.disk|
    ensures forall t :: fs.geo.database <= t < |fs.disk| ==>
      fs.Logical()[t] == if fs.wflag && t == fs.winsect then fs.win[..] else fs.disk[t]
  {
    hide Mirrored;
  }

  /** The direct transfer of f_read: whole sectors from the device, a dirty one replaced by the window. */
  method ReadRun(fs: FatFs, sect: nat, cc: nat, buff: array<Byte>, at: nat)
    requires fs.Valid() && buff != fs.win
    requires fs.geo.database <= sect && sect + cc <= |fs.disk| && at + cc * 512 <= buff.Length
    modifies buff
    ensures fs.Valid() && fs.Logical() == old(fs.Logical())
    ensures buff[..] == Splice(old(buff[..]), at, RunBytes(fs.Logical(), sect, cc))
  {
    LogicalRun(fs, sect, cc);
    hide RunBytes, Splice, FatFs.Valid, FatFs.Logical;
    ghost var before, run := buff[..], RunBytes(fs.disk, sect, cc);
    MemCpy(buff, at, RunBytes(fs.disk, sect, cc));
    if fs.wflag && sect <= fs.winsect < sect + cc {
      MemCpy(buff, at + (fs.winsect - sect) * 512, fs.win[..]);
      SpliceTwice(before, at, run, (fs.winsect - sect) * 512, fs.win[..]);
    }
  }

  lemma SpliceTwice(b: seq<Byte>, at: nat, r: seq<Byte>, off: nat, w: seq<Byte>)
    requires at + |r| <= |b| && off + |w| <= |r|
    ensures Splice(Splice(b, at, r), at + off, w) == Splice(b, at, Splice(r, off, w))
  {
  }

  /** A partial sector is picked out of the window. */
  method ReadPart(fs: FatFs, sect: nat, off: nat, n: nat, buff: array<Byte>, at: nat)
    requires fs.Valid() && buff != fs.win
    requires 0 < sect < |fs.disk| && off + n <= 512 && at + n <= buff.Length
    modifies fs`disk, fs`winsect, fs`wflag, fs.win, buff
    ensures fs.Valid() && fs.Logical() == old(fs.Logical())
    ensures buff[..] == Splice(old(buff[..]), at, fs.Logical()[sect][off..off + n])
  {
    hide Sound, Mirrored;
    fs.MoveWindow(sect);
    MemCpy(buff, at, fs.win[off..off + n]);
    assert fs.win[off..off + n] == fs.Logical()[sect][off..off + n];
  }
}

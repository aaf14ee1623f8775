/** Circular buffers that keep one cell free, so that equal indices mean empty. */
module Rings {
  import opened Arith
  import opened Bytes

  ghost predicate Ring(buf: seq<Byte>, rd: nat, wr: nat) {
    rd < |buf| && wr < |buf|
  }

  /** The bytes between the read and the write index, in order. */
  function Contents(buf: seq<Byte>, rd: nat, wr: nat): seq<Byte> {
    if rd <= wr <= |buf| then buf[rd..wr]
    else if wr < rd <= |buf| then buf[rd..] + buf[..wr]
    else []
  }

  /** Number of bytes in a ring of len cells. */
  function Level(rd: nat, wr: nat, len: nat): int {
    if rd <= wr then wr - rd else len - rd + wr
  }

  lemma Wrap(i: nat, n: nat, len: nat)
    requires i < len && n <= len
    ensures (i + n) % len == if i + n < len then i + n else i + n - len
  {
    if i + n < len {
      DivUnique(i + n, len, 0, i + n);
    } else {
      DivUnique(i + n, len, 1, i + n - len);
    }
  }

  /** A ring never holds as many bytes as it has cells, and is empty exactly when the indices agree. */
  lemma ContentsSize(buf: seq<Byte>, rd: nat, wr: nat)
    requires Ring(buf, rd, wr)
    ensures |Contents(buf, rd, wr)| == Level(rd, wr, |buf|) < |buf|
    ensures Contents(buf, rd, wr) == [] <==> rd == wr
  {
  }

  /** The bytes of a ring by position. */
  lemma ContentsAt(buf: seq<Byte>, rd: nat, wr: nat, k: nat)
    requires Ring(buf, rd, wr) && k < Level(rd, wr, |buf|)
    ensures Contents(buf, rd, wr)[k] == buf[if rd + k < |buf| then rd + k else rd + k - |buf|]
  {
  }

  /** Contents are determined by their size and their bytes by position. */
  lemma Same(buf: seq<Byte>, rd: nat, wr: nat, s: seq<Byte>)
    requires Ring(buf, rd, wr) && |s| == Level(rd, wr, |buf|)
    requires forall k: nat :: k < |s| ==> buf[if rd + k < |buf| then rd + k else rd + k - |buf|] == s[k]
    ensures Contents(buf, rd, wr) == s
  {
    ContentsSize(buf, rd, wr);
    forall k: nat | k < |s|
      ensures Contents(buf, rd, wr)[k] == s[k]
    {
      ContentsAt(buf, rd, wr, k);
    }
  }

  /** Cells the ring does not hold may be written. */
  lemma PutFree(buf: seq<Byte>, rd: nat, wr: nat, k: nat, b: Byte)
    requires Ring(buf, rd, wr) && wr + k < |buf| && Level(rd, wr, |buf|) + k < |buf|
    ensures Contents(buf[wr + k := b], rd, wr) == Contents(buf, rd, wr)
  {
    var c := buf[wr + k := b];
    var s := Contents(buf, rd, wr);
    ContentsSize(buf, rd, wr);
    forall j: nat | j < |s|
      ensures c[if rd + j < |c| then rd + j else rd + j - |c|] == s[j]
    {
      ContentsAt(buf, rd, wr, j);
    }
    Same(c, rd, wr, s);
  }

  /** Advancing wr over n free cells appends what they hold. */
  lemma PushMany(buf: seq<Byte>, rd: nat, wr: nat, n: nat)
    requires Ring(buf, rd, wr) && wr + n <= |buf| && Level(rd, wr, |buf|) + n < |buf|
    ensures Ring(buf, rd, (wr + n) % |buf|)
    ensures Contents(buf, rd, (wr + n) % |buf|) == Contents(buf, rd, wr) + buf[wr..wr + n]
  {
    Wrap(wr, n, |buf|);
    var d := (wr + n) % |buf|;
    var s := Contents(buf, rd, wr);
    ContentsSize(buf, rd, wr);
    assert Level(rd, d, |buf|) == |s| + n;
    var u := s + buf[wr..wr + n];
    forall j: nat | j < |u|
      ensures buf[if rd + j < |buf| then rd + j else rd + j - |buf|] == u[j]
    {
      if j < |s| {
        ContentsAt(buf, rd, wr, j);
      }
    }
    Same(buf, rd, d, u);
  }

  /** The oldest n bytes stand at rd when they do not wrap, and advancing rd removes them. */
  lemma PopMany(buf: seq<Byte>, rd: nat, wr: nat, n: nat)
    requires Ring(buf, rd, wr) && rd + n <= |buf| && n <= Level(rd, wr, |buf|)
    ensures Ring(buf, (rd + n) % |buf|, wr)
    ensures Contents(buf, rd, wr) == buf[rd..rd + n] + Contents(buf, (rd + n) % |buf|, wr)
    ensures Level((rd + n) % |buf|, wr, |buf|) == Level(rd, wr, |buf|) - n
  {
    Wrap(rd, n, |buf|);
    var d := (rd + n) % |buf|;
    var s := buf[rd..rd + n] + Contents(buf, d, wr);
    ContentsSize(buf, d, wr);
    forall j: nat | j < |s|
      ensures buf[if rd + j < |buf| then rd + j else rd + j - |buf|] == s[j]
    {
      if j >= n {
        ContentsAt(buf, d, wr, j - n);
      }
    }
    Same(buf, rd, wr, s);
  }
}

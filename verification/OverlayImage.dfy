/** The dense disk image of the overlay store: records, their bytes, and the reader (fs/overlay.c:625-637, 717-832). */
module OverlayImage {
  import opened Words
  import opened OverlayPaths
  import opened OverlayState

  const KIND_FILE: U8 := 0
  const KIND_DIR: U8 := 1
  const KIND_BLOCK: U8 := 2

  /** One record: a file head with its first block, a directory, or a further block. */
  datatype Record = Record(kind: U8, path: Path, data: seq<U8>, size: U32)

  datatype Option<+T> = None | Some(value: T)

  // ---------------------------------------------------------------- little-endian words

  function U16LE(v: U16): seq<U8> { [v % 256, v / 256] }

  function U32LE(v: U32): seq<U8>
  {
    var a := v / 256;
    var b := a / 256;
    [v % 256, a % 256, b % 256, b / 256]
  }

  function GetU16(b: seq<U8>, i: nat): U16
    requires i + 2 <= |b|
  {
    var lo: int, hi: int := b[i], b[i + 1];
    lo + 256 * hi
  }

  function GetU32(b: seq<U8>, i: nat): U32
    requires i + 4 <= |b|
  {
    var b0: int, b1: int, b2: int, b3: int := b[i], b[i + 1], b[i + 2], b[i + 3];
    b0 + 256 * (b1 + 256 * (b2 + 256 * b3))
  }

  lemma WordsRoundTrip(b: seq<U8>, i: nat, v: U32)
    requires i + 4 <= |b| && b[i..i + 4] == U32LE(v)
    ensures GetU32(b, i) == v
  {
    var s := b[i..i + 4];
    assert b[i] == s[0] && b[i + 1] == s[1] && b[i + 2] == s[2] && b[i + 3] == s[3];
  }

  // ---------------------------------------------------------------- serialisation

  predicate Sized(r: Record) { |r.path| < PATH_MAX && |r.data| <= DATA_MAX }

  /** `ov_put_rec`: the bytes of one record. */
  function RecBytes(r: Record): seq<U8>
    requires Sized(r)
  {
    [r.kind, |r.path|] + U16LE(|r.data|) + U32LE(r.size) + r.path + r.data
  }

  /** A record on disk, byte by byte: kind, path length, data length and size with the low byte first, path, data. */
  lemma RecordLayout(r: Record)
    requires Sized(r)
    ensures var b := RecBytes(r);
      && |b| == 8 + |r.path| + |r.data| && b[0] == r.kind && b[1] == |r.path|
      && (var lo: int, hi: int := b[2], b[3]; lo + 256 * hi == |r.data|)
      && (var b0: int, b1: int, b2: int, b3: int := b[4], b[5], b[6], b[7];
          b0 + 256 * b1 + 65536 * b2 + 16777216 * b3 == r.size)
      && b[8..8 + |r.path|] == r.path && b[8 + |r.path|..] == r.data
  {
    var b, w := RecBytes(r), U32LE(r.size);
    assert b[4] == w[0] && b[5] == w[1] && b[6] == w[2] && b[7] == w[3];
  }

  lemma WordIs(b: seq<U8>, i: nat)
    requires i + 4 <= |b|
    ensures var b0: int, b1: int, b2: int, b3: int := b[i], b[i + 1], b[i + 2], b[i + 3];
      GetU32(b, i) == b0 + 256 * b1 + 65536 * b2 + 16777216 * b3
  {
  }

  predicate AllSized(recs: seq<Record>) { forall k :: 0 <= k < |recs| ==> Sized(recs[k]) }

  function RecsBytes(recs: seq<Record>): seq<U8>
    requires AllSized(recs)
  {
    if recs == [] then [] else RecBytes(recs[0]) + RecsBytes(recs[1..])
  }

  lemma {:induction false} RecsBytesAppend(a: seq<Record>, b: seq<Record>)
    requires AllSized(a) && AllSized(b)
    ensures AllSized(a + b) && RecsBytes(a + b) == RecsBytes(a) + RecsBytes(b)
  {
    hide RecBytes;
    if a == [] {
      assert a + b == b;
    } else {
      RecsBytesAppend(a[1..], b);
      assert (a + b)[1..] == a[1..] + b;
    }
  }

  lemma RecsBytesOne(r: Record)
    requires Sized(r)
    ensures RecsBytes([r]) == RecBytes(r) && |RecBytes(r)| == REC_HDR + |r.path| + |r.data|
  {
    assert [r][1..] == [];
  }

  /** Block k of a file as a record. */
  function BlockRec(p: Path, d: seq<U8>, k: nat): Record
    requires k < Blocks(|d|) && |d| < BASE
  {
    Record(if k == 0 then KIND_FILE else KIND_BLOCK, if k == 0 then p else [],
           d[k * DATA_MAX..k * DATA_MAX + BlockLen(|d|, k)], if k == 0 then |d| else 0)
  }

  /** The first k blocks of a file. */
  function FileRecs(p: Path, d: seq<U8>, k: nat): (r: seq<Record>)
    requires k <= Blocks(|d|) && |d| < BASE
    ensures |r| == k && forall j :: 0 <= j < k ==> r[j] == BlockRec(p, d, j)
  {
    if k == 0 then [] else FileRecs(p, d, k - 1) + [BlockRec(p, d, k - 1)]
  }

  function EntryRecs(p: Path, e: Entry): seq<Record>
    requires e.File? ==> |e.bytes| < BASE
  {
    match e case Dir => [Record(KIND_DIR, p, [], 0)] case File(d) => FileRecs(p, d, Blocks(|d|))
  }

  lemma {:induction false} FileRecsBytes(p: Path, d: seq<U8>, k: nat)
    requires 0 < k <= Blocks(|d|) && |d| < BASE && |p| < PATH_MAX
    ensures AllSized(FileRecs(p, d, k))
    ensures |RecsBytes(FileRecs(p, d, k))| == k * REC_HDR + |p| + if k == Blocks(|d|) then |d| else k * DATA_MAX
  {
    hide RecsBytes, RecBytes;
    var last := BlockRec(p, d, k - 1);
    if k > 1 { FileRecsBytes(p, d, k - 1); } else { RecsBytesNone(FileRecs(p, d, 0)); }
    RecsBytesOne(last);
    RecsBytesAppend(FileRecs(p, d, k - 1), [last]);
  }

  lemma RecsBytesNone(r: seq<Record>)
    requires r == []
    ensures AllSized(r) && RecsBytes(r) == []
  {
  }

  /** The size formula of one entry is the length of its records. */
  lemma EntryRecsBytes(p: Path, e: Entry)
    requires |p| < PATH_MAX && (e.File? ==> |e.bytes| < BASE)
    ensures AllSized(EntryRecs(p, e)) && |RecsBytes(EntryRecs(p, e))| == EntryBytes(p, e)
  {
    match e {
      case Dir =>
        RecsBytesOne(Record(KIND_DIR, p, [], 0));
      case File(d) =>
        FileRecsBytes(p, d, Blocks(|d|));
    }
  }

  // ---------------------------------------------------------------- the reader

  /** The fields of a record at byte off, its checks in the reader's order, and the bytes it takes. */
  function PathLen(b: seq<U8>, off: nat): nat requires off + 8 <= |b| { b[off + 1] }
  function DataLen(b: seq<U8>, off: nat): nat requires off + 8 <= |b| { GetU16(b, off + 2) }
  function RecLen(b: seq<U8>, off: nat): nat requires off + 8 <= |b| { REC_HDR + PathLen(b, off) + DataLen(b, off) }

  /** The record at off lies within the first n bytes. */
  predicate InBounds(b: seq<U8>, n: nat, off: nat)
    requires n <= |b|
  {
    && off + REC_HDR <= n && b[off] <= 2 && PathLen(b, off) < PATH_MAX && DataLen(b, off) <= DATA_MAX
    && off + RecLen(b, off) <= n
  }

  function RecordAt(b: seq<U8>, off: nat): Record
    requires off + 8 <= |b| && off + RecLen(b, off) <= |b|
  {
    var q := off + REC_HDR;
    Record(b[off], b[q..q + PathLen(b, off)], b[q + PathLen(b, off)..q + PathLen(b, off) + DataLen(b, off)],
           GetU32(b, off + 4))
  }

  /** What the reader demands of a record, given the bytes still missing from the current file. */
  predicate Admitted(r: Record, left: nat, limit: nat)
  {
    && r.kind <= 2 && NoNul(r.path)
    && (r.kind == KIND_BLOCK ==> left > 0 && r.path == [] && 0 < |r.data| <= left)
    && (r.kind != KIND_BLOCK ==> left == 0 && r.path != [])
    && (r.kind == KIND_DIR ==> |r.data| == 0 && r.size == 0)
    && (r.kind == KIND_FILE ==> r.size <= limit && |r.data| == if r.size > DATA_MAX then DATA_MAX else r.size)
  }

  /** Bytes of the current file still missing after the record. */
  function LeftAfter(r: Record, left: nat): int
  {
    if r.kind == KIND_FILE then r.size - |r.data| else if r.kind == KIND_BLOCK then left - |r.data| else 0
  }

  /** The records that the reader accepts from byte off, or None. */
  function Parse(b: seq<U8>, n: nat, off: nat, count: nat, left: nat, limit: nat): (r: Option<seq<Record>>)
    requires n <= |b|
    ensures r.Some? ==> |r.value| == count
    decreases count
  {
    if count == 0 then (if left == 0 then Some([]) else None)
    else if !InBounds(b, n, off) then None
    else
      var rec := RecordAt(b, off);
      if !Admitted(rec, left, limit) || LeftAfter(rec, left) < 0 then None
      else match Parse(b, n, off + RecLen(b, off), count - 1, LeftAfter(rec, left), limit)
           case None => None
           case Some(rest) => Some([rec] + rest)
  }

  /** A record sequence that the reader accepts wherever it is written. */
  predicate Readable(recs: seq<Record>, left: nat, limit: nat)
    decreases |recs|
  {
    if recs == [] then left == 0
    else Sized(recs[0]) && Admitted(recs[0], left, limit) && LeftAfter(recs[0], left) >= 0
         && Readable(recs[1..], LeftAfter(recs[0], left), limit)
  }

  lemma RecordRoundTrip(b: seq<U8>, n: nat, off: nat, r: Record)
    requires Sized(r) && off + |RecBytes(r)| <= n <= |b| && b[off..off + |RecBytes(r)|] == RecBytes(r) && r.kind <= 2
    ensures InBounds(b, n, off) && RecLen(b, off) == |RecBytes(r)| && RecordAt(b, off) == r
  {
    hide U32LE, GetU32;
    var a, w := [r.kind, |r.path|] + U16LE(|r.data|), U32LE(r.size);
    WordLength(r.size);
    assert RecBytes(r) == a + (w + (r.path + r.data));
    SplitAt(b, off, a, w + (r.path + r.data));
    SplitAt(b, off + 4, w, r.path + r.data);
    SplitAt(b, off + 8, r.path, r.data);
    FirstBytes(b, off, r.kind, |r.path|, |r.data|);
    WordsRoundTrip(b, off + 4, r.size);
  }

  lemma WordLength(v: U32)
    ensures |U32LE(v)| == 4
  {
  }

  lemma FirstBytes(b: seq<U8>, off: nat, kind: U8, plen: U8, dlen: U16)
    requires off + 4 <= |b| && b[off..off + 4] == [kind, plen] + U16LE(dlen)
    ensures b[off] == kind && b[off + 1] == plen && GetU16(b, off + 2) == dlen
  {
    var x := b[off..off + 4];
    assert b[off] == x[0] && b[off + 1] == x[1] && b[off + 2] == x[2] && b[off + 3] == x[3];
  }

  lemma SplitAt(b: seq<U8>, off: nat, x: seq<U8>, y: seq<U8>)
    requires off + |x| + |y| <= |b| && b[off..off + |x| + |y|] == x + y
    ensures b[off..off + |x|] == x && b[off + |x|..off + |x| + |y|] == y
  {
    var all := b[off..off + |x| + |y|];
    assert b[off..off + |x|] == all[..|x|] && b[off + |x|..off + |x| + |y|] == all[|x|..];
  }

  /** What stands where a record is read is the bytes of that record. */
  lemma RecordIsThere(b: seq<U8>, n: nat, off: nat)
    requires n <= |b| && InBounds(b, n, off)
    ensures Sized(RecordAt(b, off)) && RecordAt(b, off).kind <= 2
    ensures RecBytes(RecordAt(b, off)) == b[off..off + RecLen(b, off)]
  {
    hide U32LE, GetU32;
    var r, q := RecordAt(b, off), off + 8;
    WordBack(b, off + 4);
    assert U16LE(|r.data|) == [b[off + 2], b[off + 3]] by { hide RecordAt; HalfBack(b[off + 2], b[off + 3], |r.data|); }
    assert b[off..off + RecLen(b, off)] ==
      [b[off], b[off + 1]] + [b[off + 2], b[off + 3]] + b[off + 4..q] + b[q..q + |r.path|]
      + b[q + |r.path|..q + |r.path| + |r.data|];
  }

  lemma HalfBack(lo: int, hi: int, v: int)
    requires 0 <= lo < 256 && 0 <= hi < 256 && v == lo + 256 * hi
    ensures v % 256 == lo && v / 256 == hi
  {
  }

  lemma WordBack(b: seq<U8>, i: nat)
    requires i + 4 <= |b|
    ensures U32LE(GetU32(b, i)) == b[i..i + 4]
  {
    var b0: int, b1: int, b2: int, b3: int := b[i], b[i + 1], b[i + 2], b[i + 3];
    var y := b2 + 256 * b3;
    var x := b1 + 256 * y;
    Digit(b0, x);
    Digit(b1, y);
    Digit(b2, b3);
  }

  lemma Digit(d: int, x: int)
    requires 0 <= d < 256 && 0 <= x
    ensures (d + 256 * x) % 256 == d && (d + 256 * x) / 256 == x
  {
  }

  /** The reader takes nothing that is not there: what it parses are the bytes of the records, and its rules admit them.
      With `ParseSerialised`, it accepts exactly the images of admissible records. */
  lemma {:induction false} ParseExact(b: seq<U8>, n: nat, off: nat, count: nat, left: nat, limit: nat)
    requires off <= n <= |b| && Parse(b, n, off, count, left, limit).Some?
    ensures var recs := Parse(b, n, off, count, left, limit).value;
      && AllSized(recs) && Readable(recs, left, limit) && (forall k :: 0 <= k < |recs| ==> recs[k].kind <= 2)
      && off + |RecsBytes(recs)| <= n && b[off..off + |RecsBytes(recs)|] == RecsBytes(recs)
    decreases count
  {
    hide RecBytes, InBounds, RecordAt, RecLen, RecsBytes, Readable, AllSized;
    if count > 0 {
      InBoundsEnds(b, n, off);
      RecordIsThere(b, n, off);
      var r, len := RecordAt(b, off), RecLen(b, off);
      ParseExact(b, n, off + len, count - 1, LeftAfter(r, left), limit);
      var rest := Parse(b, n, off + len, count - 1, LeftAfter(r, left), limit).value;
      OneMore(r, rest, left, limit);
      Joined(b, off, len, |RecsBytes(rest)|);
    } else {
      NoRecords();
      assert b[off..off] == [];
    }
  }

  lemma InBoundsEnds(b: seq<U8>, n: nat, off: nat)
    requires n <= |b| && InBounds(b, n, off)
    ensures off + 8 <= n && off + RecLen(b, off) <= n
  {
  }

  lemma NoRecords()
    ensures AllSized([]) && RecsBytes([]) == [] && forall limit: nat :: Readable([], 0, limit)
  {
  }

  lemma OneMore(r: Record, rest: seq<Record>, left: nat, limit: nat)
    requires Sized(r) && AllSized(rest) && Admitted(r, left, limit) && LeftAfter(r, left) >= 0
    requires Readable(rest, LeftAfter(r, left), limit)
    ensures AllSized([r] + rest) && RecsBytes([r] + rest) == RecBytes(r) + RecsBytes(rest)
    ensures Readable([r] + rest, left, limit)
  {
    assert ([r] + rest)[1..] == rest;
  }

  lemma Joined(b: seq<U8>, off: nat, m: nat, k: nat)
    requires off + m + k <= |b|
    ensures b[off..off + m] + b[off + m..off + m + k] == b[off..off + m + k]
  {
  }

  /** Reading a written record sequence gives the same records, or nothing if the reader's rules do not admit them. */
  lemma {:induction false} ParseSerialised(b: seq<U8>, n: nat, off: nat, recs: seq<Record>, left: nat, limit: nat)
    requires AllSized(recs) && forall k :: 0 <= k < |recs| ==> recs[k].kind <= 2
    requires off + |RecsBytes(recs)| <= n <= |b| && b[off..off + |RecsBytes(recs)|] == RecsBytes(recs)
    ensures Parse(b, n, off, |recs|, left, limit) == if Readable(recs, left, limit) then Some(recs) else None
    decreases |recs|
  {
    hide RecBytes, InBounds, RecordAt, RecLen;
    if recs != [] {
      var r, rest := recs[0], recs[1..];
      SplitAt(b, off, RecBytes(r), RecsBytes(rest));
      RecordRoundTrip(b, n, off, r);
      if Admitted(r, left, limit) && LeftAfter(r, left) >= 0 {
        ParseSerialised(b, n, off + |RecBytes(r)|, rest, LeftAfter(r, left), limit);
      }
      assert recs == [r] + rest;
    }
  }

}

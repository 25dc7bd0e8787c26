/** The shard write-ahead log (crates/qv-storage/src/wal.rs). */
module Wal {
  import opened Bytes
  import opened Clocks
  import opened FramedLog

  datatype WalOp = Upsert | Delete {
    function ToByte(): byte { if Upsert? then 0 else 1 }
  }

  datatype WalRecord = WalRecord(op: WalOp, hlc: Hlc, id: u64, vector: Vector, payload: seq<byte>) {
    /** The two length fields are u32. */
    predicate WellFormed() { |vector| < U32 && |payload| < U32 }
  }

  function EncodeVector(v: Vector): (b: seq<byte>)
    ensures |b| == 4 * |v|
  {
    if v == [] then [] else EncodeVector(v[..|v| - 1]) + ToLe(4, v[|v| - 1])
  }

  /** The variable-length end of a body: vector and payload, each behind its u32 length. */
  function EncodeContent(v: Vector, payload: seq<byte>): (b: seq<byte>)
    ensures |b| == 8 + 4 * |v| + |payload|
  {
    ToLe(4, |v|) + EncodeVector(v) + ToLe(4, |payload|) + payload
  }

  function EncodeBody(r: WalRecord): (b: seq<byte>)
    ensures |b| == 25 + 4 * |r.vector| + |r.payload|
  {
    [r.op.ToByte()] + ToLe(8, r.hlc.Pack()) + ToLe(8, r.id) + EncodeContent(r.vector, r.payload)
  }

  function WalFormat(crc: seq<byte> -> u32): Format<WalRecord> {
    Format(EncodeBody, (r: WalRecord) => r.WellFormed(), crc)
  }

  lemma EncodeVectorParts(v: Vector, n: nat)
    requires |v| == n + 1
    ensures EncodeVector(v)[..4 * n] == EncodeVector(v[..n]) && EncodeVector(v)[4 * n..] == ToLe(4, v[n])
  {
    assert EncodeVector(v) == EncodeVector(v[..n]) + ToLe(4, v[n]);
  }

  lemma EncodeVectorEnds(a: Vector, b: Vector, n: nat)
    requires |a| == |b| == n + 1 && EncodeVector(a) == EncodeVector(b)
    ensures EncodeVector(a[..n]) == EncodeVector(b[..n]) && a[n] == b[n]
  {
    EncodeVectorParts(a, n);
    EncodeVectorParts(b, n);
    Widths();
    ToLeInjective(4, a[n], b[n]);
  }

  lemma {:induction false} EncodeVectorInjective(a: Vector, b: Vector)
    requires EncodeVector(a) == EncodeVector(b)
    ensures a == b
    decreases |a|
  {
    assert |a| == |b|;
    if a != [] {
      var n := |a| - 1;
      EncodeVectorEnds(a, b, n);
      EncodeVectorInjective(a[..n], b[..n]);
      assert a == a[..n] + [a[n]] && b == b[..n] + [b[n]];
    }
  }

  /** A content is the encoding of a vector and a payload exactly when its parts sit in place. */
  lemma ContentLayout(v: Vector, payload: seq<byte>, b: seq<byte>)
    requires |b| == 8 + 4 * |v| + |payload|
    ensures b == EncodeContent(v, payload) <==>
              && b[..4] == ToLe(4, |v|)
              && b[4..4 + 4 * |v|] == EncodeVector(v)
              && b[4 + 4 * |v|..8 + 4 * |v|] == ToLe(4, |payload|)
              && b[8 + 4 * |v|..] == payload
  {
    Cat4(ToLe(4, |v|), EncodeVector(v), ToLe(4, |payload|), payload, b, 4, 4 + 4 * |v|, 8 + 4 * |v|);
  }

  lemma ContentInjective(v: Vector, p: seq<byte>, v': Vector, p': seq<byte>)
    requires |v| < U32 && |v'| < U32 && EncodeContent(v, p) == EncodeContent(v', p')
    ensures v == v' && p == p'
  {
    ContentLayout(v, p, EncodeContent(v, p));
    assert EncodeContent(v', p')[..4] == ToLe(4, |v'|);
    Widths();
    ToLeInjective(4, |v|, |v'|);
    ContentLayout(v', p', EncodeContent(v, p));
    EncodeVectorInjective(v, v');
  }

  /** A body is the encoding of a record exactly when its fields sit in place. */
  lemma BodyLayout(r: WalRecord, b: seq<byte>)
    ensures b == EncodeBody(r) <==>
              && |b| >= 17
              && b[0] == r.op.ToByte()
              && b[1..9] == ToLe(8, r.hlc.Pack())
              && b[9..17] == ToLe(8, r.id)
              && b[17..] == EncodeContent(r.vector, r.payload)
  {}

  lemma WalBodiesInjective(crc: seq<byte> -> u32)
    ensures Injective(WalFormat(crc))
  {
    forall a: WalRecord, b: WalRecord | a.WellFormed() && b.WellFormed() && EncodeBody(a) == EncodeBody(b)
      ensures a == b
    {
      BodyLayout(a, EncodeBody(a));
      BodyLayout(b, EncodeBody(a));
      Widths();
      ToLeInjective(8, a.hlc.Pack(), b.hlc.Pack());
      ToLeInjective(8, a.id, b.id);
      ContentInjective(a.vector, a.payload, b.vector, b.payload);
      PackIsOrderIsomorphism(a.hlc, b.hlc, 0);
    }
  }

  /** The byte length the shard's replay accounting assigns to a record. */
  function FramedLen(r: WalRecord): nat {
    4 + 4 + (1 + 8 + 8 + 4 + |r.vector| * 4 + 4 + |r.payload|)
  }

  method Encode(r: WalRecord) returns (b: seq<byte>)
    ensures b == EncodeBody(r)
    ensures b[0] == (if r.op.Upsert? then 0 else 1)
  {
    b := [r.op.ToByte()];
    b := b + ToLe(8, r.hlc.Pack());
    b := b + ToLe(8, r.id);
    b := b + ToLe(4, |r.vector|);
    b := PushFloats(b, r.vector);
    b := b + ToLe(4, |r.payload|);
    b := b + r.payload;
  }

  method PushFloats(head: seq<byte>, v: Vector) returns (b: seq<byte>)
    ensures b == head + EncodeVector(v)
  {
    b := head;
    for i := 0 to |v|
      invariant b == head + EncodeVector(v[..i])
    {
      assert v[..i + 1][..i] == v[..i];
      b := b + ToLe(4, v[i]);
    }
    assert v[..|v|] == v;
  }

  method DecodeVector(body: seq<byte>, dim: nat) returns (vector: Vector)
    requires |body| == 4 * dim
    ensures EncodeVector(vector) == body
  {
    vector := [];
    var p := 0;
    for i := 0 to dim
      invariant |vector| == i && p == 4 * i
      invariant EncodeVector(vector) == body[..p]
    {
      var f: F32 := Read32(body, p);
      assert (vector + [f])[..i] == vector;
      assert body[..p + 4] == body[..p] + body[p..p + 4];
      vector := vector + [f];
      p := p + 4;
    }
    assert body[..p] == body;
  }

  ghost predicate IsContent(b: seq<byte>, v: Vector, payload: seq<byte>) {
    |v| < U32 && |payload| < U32 && b == EncodeContent(v, payload)
  }

  /** The two length fields account for every byte. */
  predicate LengthsAddUp(b: seq<byte>) {
    && |b| >= 4
    && |b| >= 8 + 4 * (Read32(b, 0) as int)
    && |b| == 8 + 4 * (Read32(b, 0) as int) + Read32(b, 4 + 4 * (Read32(b, 0) as int))
  }

  lemma ContentLengths(b: seq<byte>, v: Vector, payload: seq<byte>)
    requires IsContent(b, v, payload)
    ensures LengthsAddUp(b)
  {
    ContentLayout(v, payload, b);
    Widths();
    ToLeInjective(4, Read32(b, 0), |v|);
    ToLeInjective(4, Read32(b, 4 + 4 * |v|), |payload|);
  }

  /** The length-checked cursor walk over vector and payload, which must consume
      every byte; shared in form by the WAL and the hint decoder. */
  method DecodeContent(b: seq<byte>) returns (ok: bool, vector: Vector, payload: seq<byte>)
    ensures ok <==> LengthsAddUp(b)
    ensures ok ==> IsContent(b, vector, payload)
  {
    ok, vector, payload := false, [], [];
    if !(4 <= |b|) { return; }
    var dim: nat := Read32(b, 0);
    if !(4 + dim * 4 <= |b|) { return; }
    vector := DecodeVector(b[4..4 + dim * 4], dim);
    var p := 4 + dim * 4;
    if !(p + 4 <= |b|) { return; }
    var plen: nat := Read32(b, p);
    p := p + 4;
    if !(p + plen <= |b|) { return; }
    payload := b[p..p + plen];
    if p + plen != |b| { return; }
    ok := true;
    ContentLayout(vector, payload, b);
  }

  /** Decoding inverts encoding: it returns a record exactly when the body is some
      record's encoding, and then that record. */
  method Decode(body: seq<byte>) returns (r: Option<WalRecord>)
    ensures r.Some? ==> r.value.WellFormed() && body == EncodeBody(r.value)
    ensures r.None? ==> forall x: WalRecord | x.WellFormed() :: EncodeBody(x) != body
  {
    forall x: WalRecord | x.WellFormed() && EncodeBody(x) == body
      ensures |body| >= 17 && body[0] <= 1 && LengthsAddUp(body[17..])
    {
      BodyLayout(x, body);
      ContentLengths(body[17..], x.vector, x.payload);
    }
    if !(1 <= |body|) { return None; }
    if body[0] > 1 { return None; }
    var op := if body[0] == 0 then Upsert else Delete;
    if !(9 <= |body|) { return None; }
    var packed := Read64(body, 1);
    if !(17 <= |body|) { return None; }
    var id := Read64(body, 9);
    var ok, vector, payload := DecodeContent(body[17..]);
    if !ok { return None; }
    var rec := WalRecord(op, Unpack(packed), id, vector, payload);
    PackIsOrderIsomorphism(ZERO, ZERO, packed);
    BodyLayout(rec, body);
    r := Some(rec);
  }

  /** Read the frame at the start of `buf`, if there is one. */
  method ReadFrame(crc: seq<byte> -> u32, buf: seq<byte>) returns (r: Option<WalRecord>)
    ensures r.Some? ==> StartsWithFrame(WalFormat(crc), buf, r.value)
    ensures r.None? ==> forall x :: !StartsWithFrame(WalFormat(crc), buf, x)
  {
    ghost var f := WalFormat(crc);
    forall x | StartsWithFrame(f, buf, x)
      ensures |buf| >= 8 + |EncodeBody(x)| && FromLe(buf[..4]) == 4 + |EncodeBody(x)|
      ensures FromLe(buf[4..8]) == crc(EncodeBody(x)) && EncodeBody(x) == buf[8..8 + |EncodeBody(x)|]
      ensures x.WellFormed()
    {
      FrameHeader(f, buf, x);
    }
    if !(4 <= |buf|) { return None; }
    var frameLen := FromLe(buf[..4]);
    var frameEnd := 4 + frameLen;
    if frameLen < 4 || frameEnd > |buf| { return None; }
    var storedCrc := FromLe(buf[4..8]);
    var body := buf[8..frameEnd];
    if crc(body) != storedCrc { return None; }
    r := Decode(body);
    if r.Some? { HeaderFrame(f, buf, r.value); }
  }

  /** Recovery keeps the longest run of whole frames and truncates the file to it. */
  method Recover(crc: seq<byte> -> u32, buf: seq<byte>) returns (records: seq<WalRecord>, kept: seq<byte>)
    ensures IsParse(WalFormat(crc), buf, records)
    ensures kept <= buf && kept == WalFormat(crc).Frames(records)
  {
    ghost var f := WalFormat(crc);
    records := [];
    var pos := 0;
    while true
      invariant pos <= |buf| && f.AllFit(records) && f.Frames(records) == buf[..pos]
      decreases |buf| - pos
    {
      var r := ReadFrame(crc, buf[pos..]);
      if r.None? { break; }
      ParseMore(f, buf, records, pos, r.value);
      records := records + [r.value];
      pos := pos + FramedLen(r.value);
    }
    kept := buf[..pos];
  }

  // ---- oversized records ----------------------------------------------------

  /** The length fields fix where an encoding ends: none is a proper prefix of another. */
  lemma ContentPrefixFree(v: Vector, p: seq<byte>, v': Vector, p': seq<byte>)
    requires |v| < U32 && |v'| < U32 && |p| < U32 && |p'| < U32 && EncodeContent(v, p) <= EncodeContent(v', p')
    ensures |EncodeContent(v, p)| == |EncodeContent(v', p')|
  {
    var c, c', n := EncodeContent(v, p), EncodeContent(v', p'), |v|;
    ContentLayout(v, p, c);
    ContentLayout(v', p', c');
    Widths();
    assert c[..4] == c'[..4];
    ToLeInjective(4, |v|, |v'|);
    assert c[4 + 4 * n..8 + 4 * n] == c'[4 + 4 * n..8 + 4 * n];
    ToLeInjective(4, |p|, |p'|);
  }

  lemma BodyPrefixFree(a: WalRecord, b: WalRecord)
    requires a.WellFormed() && b.WellFormed() && EncodeBody(a) <= EncodeBody(b)
    ensures |EncodeBody(a)| == |EncodeBody(b)|
  {
    BodyLayout(a, EncodeBody(a));
    BodyLayout(b, EncodeBody(b));
    assert EncodeBody(a)[17..] <= EncodeBody(b)[17..];
    ContentPrefixFree(a.vector, a.payload, b.vector, b.payload);
  }

  /** No frame starts where an oversized record was written, whatever follows it and
      whatever the checksum of the part its truncated length covers. */
  lemma NoFrameAtOversized(crc: seq<byte> -> u32, r: WalRecord, rest: seq<byte>, x: WalRecord)
    requires r.WellFormed() && FramedLen(r) >= U32 + 4
    ensures !StartsWithFrame(WalFormat(crc), WalFormat(crc).Frame(r) + rest, x)
  {
    if StartsWithFrame(WalFormat(crc), WalFormat(crc).Frame(r) + rest, x) {
      FrameIsPrefix(crc, r, rest, x);
      BodyPrefixFree(x, r);
    }
  }

  lemma FrameIsPrefix(crc: seq<byte> -> u32, r: WalRecord, rest: seq<byte>, x: WalRecord)
    requires FramedLen(r) >= U32 + 4 && StartsWithFrame(WalFormat(crc), WalFormat(crc).Frame(r) + rest, x)
    ensures x.WellFormed() && |EncodeBody(x)| < |EncodeBody(r)| && EncodeBody(x) <= EncodeBody(r)
  {
    var buf := WalFormat(crc).Frame(r) + rest;
    FrameHeader(WalFormat(crc), buf, x);
    assert buf[8..8 + |EncodeBody(x)|] == EncodeBody(r)[..|EncodeBody(x)|];
  }

  /** An oversized record, framed with a truncated length, ends the log for good: recovery
      returns the records before it and neither it nor anything appended later. */
  lemma OversizedEndsLog(crc: seq<byte> -> u32, log: seq<WalRecord>, r: WalRecord, rest: seq<byte>)
    requires WalFormat(crc).AllFit(log) && r.WellFormed() && FramedLen(r) >= U32 + 4
    ensures IsParse(WalFormat(crc), WalFormat(crc).Frames(log) + WalFormat(crc).Frame(r) + rest, log)
  {
    var f := WalFormat(crc);
    var buf := f.Frames(log) + f.Frame(r) + rest;
    assert buf[|f.Frames(log)|..] == f.Frame(r) + rest;
    forall x ensures !StartsWithFrame(f, buf[|f.Frames(log)|..], x) { NoFrameAtOversized(crc, r, rest, x); }
  }

  /** A record written at the end of any log comes back with it exactly when its frame
      length fits the u32 prefix. */
  lemma RoundTripIffFits(crc: seq<byte> -> u32, log: seq<WalRecord>, r: WalRecord)
    requires WalFormat(crc).AllFit(log) && r.WellFormed()
    ensures IsParse(WalFormat(crc), WalFormat(crc).Frames(log) + WalFormat(crc).Frame(r), log + [r]) <==> FramedLen(r) < U32 + 4
  {
    var f, all := WalFormat(crc), log + [r];
    assert FramedLen(r) == |f.Frame(r)| && all[..|log|] == log && all[|log|] == r;
    if f.Fits(r) {
      WalBodiesInjective(crc);
      PrefixParse(f, all, |f.Frames(all)|);
      WholeRecordsMost(f, all, |f.Frames(all)|, |all|);
      assert all[..|all|] == all && f.Frames(all)[..|f.Frames(all)|] == f.Frames(all);
    }
  }
}

/** The durable hinted-handoff log (crates/qv-storage/src/hints.rs) and the three
    operations the node performs on it (crates/qv-node/src/node_state.rs). */
module Hints {
  import opened Bytes
  import opened FramedLog
  import opened Wal

  /** One buffered write and the replica it was meant for. The collection name is
      kept as its UTF-8 bytes; the point operation has the fields of a WAL record
      and, from the op byte on, the same encoding. */
  datatype Hint = Hint(target: u64, collection: seq<byte>, shard: u32, write: WalRecord)

  predicate HintWellFormed(utf8: seq<byte> -> bool, h: Hint) {
    utf8(h.collection) && |h.collection| < U32 && h.write.WellFormed()
  }

  function EncodeHint(h: Hint): (b: seq<byte>)
    ensures |b| == 16 + |h.collection| + |EncodeBody(h.write)|
  {
    ToLe(8, h.target) + ToLe(4, |h.collection|) + h.collection + (ToLe(4, h.shard) + EncodeBody(h.write))
  }

  function HintFormat(utf8: seq<byte> -> bool, crc: seq<byte> -> u32): Format<Hint> {
    Format(EncodeHint, (h: Hint) => HintWellFormed(utf8, h), crc)
  }

  ghost predicate HintLayout(h: Hint, b: seq<byte>) {
    var c := |h.collection|;
    && |b| >= 16 + c
    && b[..8] == ToLe(8, h.target)
    && b[8..12] == ToLe(4, c)
    && b[12..12 + c] == h.collection
    && b[12 + c..16 + c] == ToLe(4, h.shard)
    && b[16 + c..] == EncodeBody(h.write)
  }

  lemma LayoutOfHint(h: Hint, b: seq<byte>)
    ensures b == EncodeHint(h) <==> HintLayout(h, b)
  {}

  lemma HintBodiesInjective(utf8: seq<byte> -> bool, crc: seq<byte> -> u32)
    ensures Injective(HintFormat(utf8, crc))
  {
    forall g: Hint, h: Hint | HintWellFormed(utf8, g) && HintWellFormed(utf8, h) && EncodeHint(g) == EncodeHint(h)
      ensures g == h
    {
      LayoutOfHint(g, EncodeHint(g));
      LayoutOfHint(h, EncodeHint(g));
      Widths();
      ToLeInjective(8, g.target, h.target);
      ToLeInjective(4, |g.collection|, |h.collection|);
      ToLeInjective(4, g.shard, h.shard);
      WalBodiesInjective(crc);
      assert WalFormat(crc).wellFormed(g.write) && WalFormat(crc).wellFormed(h.write);
      assert WalFormat(crc).encode(g.write) == WalFormat(crc).encode(h.write);
    }
  }

  /** Decoding inverts encoding, as for the WAL. */
  method DecodeHint(utf8: seq<byte> -> bool, body: seq<byte>) returns (r: Option<Hint>)
    ensures r.Some? ==> HintWellFormed(utf8, r.value) && body == EncodeHint(r.value)
    ensures r.None? ==> forall x: Hint | HintWellFormed(utf8, x) :: EncodeHint(x) != body
  {
    forall x: Hint | HintWellFormed(utf8, x) && EncodeHint(x) == body
      ensures HintLayout(x, body) && |x.collection| == Read32(body, 8)
    {
      LayoutOfHint(x, body);
      Widths();
      ToLeInjective(4, |x.collection|, Read32(body, 8));
    }
    if !(8 <= |body|) { return None; }
    var target := Read64(body, 0);
    if !(12 <= |body|) { return None; }
    var clen: nat := Read32(body, 8);
    if !(12 + clen <= |body|) { return None; }
    var collection := body[12..12 + clen];
    if !utf8(collection) { return None; }
    if !(16 + clen <= |body|) { return None; }
    var shard := Read32(body, 12 + clen);
    var w := Decode(body[16 + clen..]);
    if w.None? { return None; }
    var h := Hint(target, collection, shard, w.value);
    LayoutOfHint(h, body);
    r := Some(h);
  }

  method ReadHintFrame(utf8: seq<byte> -> bool, crc: seq<byte> -> u32, buf: seq<byte>) returns (r: Option<Hint>)
    ensures r.Some? ==> StartsWithFrame(HintFormat(utf8, crc), buf, r.value)
    ensures r.None? ==> forall x :: !StartsWithFrame(HintFormat(utf8, crc), buf, x)
  {
    ghost var f := HintFormat(utf8, crc);
    forall x | StartsWithFrame(f, buf, x)
      ensures |buf| >= 8 + |EncodeHint(x)| && FromLe(buf[..4]) == 4 + |EncodeHint(x)|
      ensures FromLe(buf[4..8]) == crc(EncodeHint(x)) && EncodeHint(x) == buf[8..8 + |EncodeHint(x)|]
      ensures HintWellFormed(utf8, x)
    {
      FrameHeader(f, buf, x);
    }
    if !(4 <= |buf|) { return None; }
    var frameLen := FromLe(buf[..4]);
    var frameEnd := 4 + frameLen;
    if frameLen < 4 || frameEnd > |buf| { return None; }
    var storedCrc := FromLe(buf[4..8]);
    var body := buf[8..frameEnd];
    if crc(body) != storedCrc { return None; }
    r := DecodeHint(utf8, body);
    if r.Some? { HeaderFrame(f, buf, r.value); }
  }

  /** `HintLog::read_all`: every intact hint; the file itself is not touched. */
  method ReadAll(utf8: seq<byte> -> bool, crc: seq<byte> -> u32, buf: seq<byte>) returns (hints: seq<Hint>)
    ensures IsParse(HintFormat(utf8, crc), buf, hints)
  {
    ghost var f := HintFormat(utf8, crc);
    hints := [];
    var pos := 0;
    while true
      invariant pos <= |buf| && f.AllFit(hints) && f.Frames(hints) == buf[..pos]
      decreases |buf| - pos
    {
      var r := ReadHintFrame(utf8, crc, buf[pos..]);
      if r.None? { break; }
      ParseMore(f, buf, hints, pos, r.value);
      hints := hints + [r.value];
      pos := pos + 8 + |EncodeHint(r.value)|;
    }
  }

  /** One node's hint log file. */
  class HintFile {
    const utf8: seq<byte> -> bool
    const crc: seq<byte> -> u32
    var file: seq<byte>

    function F(): Format<Hint> { HintFormat(utf8, crc) }

    /** The file is exactly the frames of `hints`. */
    ghost predicate Holds(hints: seq<Hint>)
      reads this
    {
      F().AllFit(hints) && file == F().Frames(hints)
    }

    constructor (utf8: seq<byte> -> bool, crc: seq<byte> -> u32)
      ensures this.utf8 == utf8 && this.crc == crc && Holds([])
    {
      this.utf8, this.crc, this.file := utf8, crc, [];
    }

    /** Append one hint. The file then holds it behind the others exactly when its frame
        length fits the u32 prefix and its fields fit theirs. */
    method BufferHint(h: Hint, ghost before: seq<Hint>)
      requires Holds(before)
      modifies this
      ensures file == old(file) + F().Frame(h)
      ensures Holds(before + [h]) <==> F().Fits(h)
    {
      assert (before + [h])[|before|] == h;
      assert (before + [h])[..|before|] == before;
      file := file + F().Frame(h);
    }

    /** Reading gives back exactly the buffered hints, in order. */
    method ReadAllHints(ghost held: seq<Hint>) returns (hints: seq<Hint>)
      requires Holds(held)
      ensures hints == held
    {
      hints := ReadAll(utf8, crc, file);
      HintBodiesInjective(utf8, crc);
      WholeRecordsMost(F(), held, |file|, |held|);
      PrefixParse(F(), held, |file|);
      assert held[..|held|] == held && file[..|file|] == file;
      ParseUnique(F(), file, hints, held);
    }

    /** Replace the whole log: clear it, then append what is kept. */
    method RewriteHints(keep: seq<Hint>)
      requires F().AllFit(keep)
      modifies this
      ensures Holds(keep)
    {
      file := [];
      for i := 0 to |keep|
        invariant Holds(keep[..i])
      {
        BufferHint(keep[i], keep[..i]);
        assert keep[..i] + [keep[i]] == keep[..i + 1];
      }
      assert keep[..|keep|] == keep;
    }
  }
}

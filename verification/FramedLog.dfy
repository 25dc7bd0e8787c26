/** The append-only framed log shared by the shard WAL and the hint log:

      u32 frame_len | u32 crc32 | body        (frame_len counts crc and body)

    Recovery is specified without reference to any decoder: the records of a byte
    string are its longest parse into frames. */
module FramedLog {
  import opened Bytes

  /** A record format: how a body is encoded, which records the encoder can
      represent, and the (uninterpreted) checksum. */
  datatype Format<!R> = Format(encode: R -> seq<byte>, wellFormed: R -> bool, crc: seq<byte> -> u32) {

    /** A record survives framing when its frame length fits the u32 prefix. */
    predicate Fits(r: R) { wellFormed(r) && 4 + |encode(r)| < U32 }

    /** The bytes `append` writes: both casts keep only the low 32 bits. */
    function Frame(r: R): (b: seq<byte>)
      ensures |b| == 8 + |encode(r)|
    {
      ToLe(4, 4 + |encode(r)|) + ToLe(4, crc(encode(r))) + encode(r)
    }

    function Frames(rs: seq<R>): seq<byte> {
      if rs == [] then [] else Frames(rs[..|rs| - 1]) + Frame(rs[|rs| - 1])
    }

    ghost predicate AllFit(rs: seq<R>) { forall i | 0 <= i < |rs| :: Fits(rs[i]) }
  }

  /** Distinct representable records have distinct bodies. */
  ghost predicate Injective<R(!new)>(f: Format<R>) {
    forall a, b | f.wellFormed(a) && f.wellFormed(b) && f.encode(a) == f.encode(b) :: a == b
  }

  ghost predicate StartsWithFrame<R>(f: Format<R>, buf: seq<byte>, r: R) {
    f.Fits(r) && f.Frame(r) <= buf
  }

  /** `rs` is the longest run of whole frames at the start of `buf`. */
  ghost predicate IsParse<R(!new)>(f: Format<R>, buf: seq<byte>, rs: seq<R>) {
    && f.AllFit(rs)
    && f.Frames(rs) <= buf
    && forall r :: !StartsWithFrame(f, buf[|f.Frames(rs)|..], r)
  }

  /** Every byte string has a parse. */
  ghost function Parse<R(!new)>(f: Format<R>, buf: seq<byte>): (rs: seq<R>)
    ensures IsParse(f, buf, rs)
    decreases |buf|
  {
    if r :| StartsWithFrame(f, buf, r) then
      var rest := Parse(f, buf[|f.Frame(r)|..]);
      PrependFrame(f, buf, r, rest);
      [r] + rest
    else []
  }

  lemma FramesCons<R>(f: Format<R>, r: R, rest: seq<R>)
    ensures f.Frames([r] + rest) == f.Frame(r) + f.Frames(rest)
  {
    FramesConcat(f, [r], rest);
    assert [r][..0] == [];
  }

  lemma PrependFrame<R(!new)>(f: Format<R>, buf: seq<byte>, r: R, rest: seq<R>)
    requires StartsWithFrame(f, buf, r) && IsParse(f, buf[|f.Frame(r)|..], rest)
    ensures IsParse(f, buf, [r] + rest)
  {
    FramesCons(f, r, rest);
    CutAgain(buf, |f.Frame(r)|, |f.Frames(rest)|);
  }

  lemma CutAgain(buf: seq<byte>, n: nat, m: nat)
    requires n + m <= |buf|
    ensures buf[n..][m..] == buf[n + m..] && buf[..n] + buf[n..][..m] == buf[..n + m]
  {}

  /** One more whole frame behind those read so far. */
  lemma ParseMore<R>(f: Format<R>, buf: seq<byte>, rs: seq<R>, pos: nat, r: R)
    requires pos <= |buf| && f.AllFit(rs) && f.Frames(rs) == buf[..pos] && StartsWithFrame(f, buf[pos..], r)
    ensures pos + |f.Frame(r)| <= |buf| && f.AllFit(rs + [r]) && f.Frames(rs + [r]) == buf[..pos + |f.Frame(r)|]
  {
    assert (rs + [r])[..|rs|] == rs;
    CutAgain(buf, pos, |f.Frame(r)|);
    assert buf[pos..][..|f.Frame(r)|] == f.Frame(r);
  }

  /** The same buffer cannot start with two different frames. */
  lemma OneFrame<R(!new)>(f: Format<R>, buf: seq<byte>, a: R, b: R)
    requires Injective(f)
    requires StartsWithFrame(f, buf, a) && StartsWithFrame(f, buf, b)
    ensures a == b
  {
    FrameHeader(f, buf, a);
    FrameHeader(f, buf, b);
  }

  /** What a reader finds at the start of a frame. */
  lemma FrameHeader<R>(f: Format<R>, buf: seq<byte>, r: R)
    requires StartsWithFrame(f, buf, r)
    ensures |buf| >= 8 + |f.encode(r)|
    ensures FromLe(buf[..4]) == 4 + |f.encode(r)|
    ensures FromLe(buf[4..8]) == f.crc(f.encode(r))
    ensures buf[8..8 + |f.encode(r)|] == f.encode(r)
  {
    var body := f.encode(r);
    assert buf[..|f.Frame(r)|] == f.Frame(r);
    assert buf[..4] == ToLe(4, 4 + |body|);
    assert buf[4..8] == ToLe(4, f.crc(body));
    Le32(buf[..4], 4 + |body|);
    Le32(buf[4..8], f.crc(body));
  }

  /** Conversely, bytes that pass the reader's three tests are a frame. */
  lemma HeaderFrame<R>(f: Format<R>, buf: seq<byte>, r: R)
    requires f.wellFormed(r) && |buf| >= 8 + |f.encode(r)|
    requires FromLe(buf[..4]) == 4 + |f.encode(r)|
    requires FromLe(buf[4..8]) == f.crc(f.encode(r))
    requires buf[8..8 + |f.encode(r)|] == f.encode(r)
    ensures StartsWithFrame(f, buf, r)
  {
    var body := f.encode(r);
    Le32(buf[..4], 0);
    Le32(buf[..4], 4 + |body|);
    Le32(buf[4..8], f.crc(body));
    assert buf[..8 + |body|] == buf[..4] + buf[4..8] + buf[8..8 + |body|];
  }

  lemma {:induction false} FramesConcat<R>(f: Format<R>, a: seq<R>, b: seq<R>)
    ensures f.Frames(a + b) == f.Frames(a) + f.Frames(b)
    decreases |b|
  {
    if b == [] {
      assert a + b == a;
    } else {
      var n := |b| - 1;
      assert (a + b)[..|a + b| - 1] == a + b[..n];
      FramesConcat(f, a, b[..n]);
    }
  }

  /** Splitting a log splits its bytes. */
  lemma FramesSplit<R>(f: Format<R>, rs: seq<R>, k: nat)
    requires k <= |rs|
    ensures f.Frames(rs) == f.Frames(rs[..k]) + f.Frames(rs[k..])
    ensures k < |rs| ==> f.Frames(rs[..k + 1]) == f.Frames(rs[..k]) + f.Frame(rs[k])
  {
    assert rs == rs[..k] + rs[k..];
    FramesConcat(f, rs[..k], rs[k..]);
    if k < |rs| { assert rs[..k + 1][..k] == rs[..k]; }
  }

  /** Two runs of whole frames at the start of one buffer agree as far as both go. */
  lemma {:induction false} ParsesAgree<R(!new)>(f: Format<R>, buf: seq<byte>, a: seq<R>, b: seq<R>, k: nat)
    requires Injective(f) && f.AllFit(a) && f.AllFit(b)
    requires f.Frames(a) <= buf && f.Frames(b) <= buf
    requires k <= |a| && k <= |b|
    ensures a[..k] == b[..k]
  {
    if k > 0 {
      var p: nat := k - 1;
      ParsesAgree(f, buf, a, b, p);
      NextAgrees(f, buf, a, b, p);
      assert a[..k] == a[..p] + [a[p]] && b[..k] == b[..p] + [b[p]];
    }
  }

  lemma NextAgrees<R(!new)>(f: Format<R>, buf: seq<byte>, a: seq<R>, b: seq<R>, p: nat)
    requires Injective(f) && f.AllFit(a) && f.AllFit(b) && f.Frames(a) <= buf && f.Frames(b) <= buf
    requires p < |a| && p < |b| && a[..p] == b[..p]
    ensures a[p] == b[p]
  {
    FrameAt(f, buf, a, p);
    FrameAt(f, buf, b, p);
    OneFrame(f, buf[|f.Frames(a[..p])|..], a[p], b[p]);
  }

  lemma FrameAt<R>(f: Format<R>, buf: seq<byte>, rs: seq<R>, k: nat)
    requires f.AllFit(rs) && f.Frames(rs) <= buf && k < |rs|
    ensures |f.Frames(rs[..k])| <= |buf|
    ensures StartsWithFrame(f, buf[|f.Frames(rs[..k])|..], rs[k])
  {
    FramesSplit(f, rs, k);
    FramesSplit(f, rs, k + 1);
    var p := |f.Frames(rs[..k])|;
    assert f.Frames(rs)[p..p + |f.Frame(rs[k])|] == f.Frame(rs[k]);
    assert f.Frames(rs) == buf[..|f.Frames(rs)|];
    assert buf[p..][..|f.Frame(rs[k])|] == f.Frame(rs[k]);
  }

  /** A byte string has exactly one parse. */
  lemma ParseUnique<R(!new)>(f: Format<R>, buf: seq<byte>, a: seq<R>, b: seq<R>)
    requires Injective(f) && IsParse(f, buf, a) && IsParse(f, buf, b)
    ensures a == b
  {
    assert a[..|a|] == a && b[..|b|] == b;
    if |a| < |b| {
      ParsesAgree(f, buf, a, b, |a|);
      FrameAt(f, buf, b, |a|);
    } else if |b| < |a| {
      ParsesAgree(f, buf, a, b, |b|);
      FrameAt(f, buf, a, |b|);
    } else {
      ParsesAgree(f, buf, a, b, |a|);
    }
  }

  /** How many leading records of a log lie wholly within its first `n` bytes. */
  function WholeRecords<R>(f: Format<R>, rs: seq<R>, n: nat): (k: nat)
    ensures k <= |rs| && |f.Frames(rs[..k])| <= n
    ensures k < |rs| ==> n < |f.Frames(rs[..k + 1])|
    decreases |rs|
  {
    if |f.Frames(rs)| <= n then (assert rs[..|rs|] == rs; |rs|)
    else
      var init := rs[..|rs| - 1];
      var k := WholeRecords(f, init, n);
      assert init[..k] == rs[..k];
      assert k < |init| ==> init[..k + 1] == rs[..k + 1];
      assert k == |init| ==> rs[..k + 1] == rs;
      k
  }

  lemma {:induction false} FramesMonotone<R>(f: Format<R>, rs: seq<R>, j: nat, k: nat)
    requires j <= k <= |rs|
    ensures |f.Frames(rs[..j])| + 8 * (k - j) <= |f.Frames(rs[..k])|
    decreases k
  {
    if j < k {
      FramesMonotone(f, rs, j, k - 1);
      FramesSplit(f, rs, k - 1);
    }
  }

  /** The records within a prefix include every record that ends within it. */
  lemma WholeRecordsMost<R>(f: Format<R>, rs: seq<R>, n: nat, j: nat)
    requires j <= |rs|
    ensures j <= WholeRecords(f, rs, n) <==> |f.Frames(rs[..j])| <= n
  {
    var k := WholeRecords(f, rs, n);
    if j <= k { FramesMonotone(f, rs, j, k); } else { FramesMonotone(f, rs, k + 1, j); }
  }

  /** A frame found anywhere in a log at a record boundary is the next record's. */
  lemma NextFrame<R(!new)>(f: Format<R>, rs: seq<R>, k: nat, r: R)
    requires Injective(f) && f.AllFit(rs) && k <= |rs|
    requires |f.Frames(rs[..k])| <= |f.Frames(rs)| && StartsWithFrame(f, f.Frames(rs)[|f.Frames(rs[..k])|..], r)
    ensures k < |rs| && r == rs[k] && |f.Frames(rs[..k + 1])| == |f.Frames(rs[..k])| + |f.Frame(r)|
  {
    assert rs[..|rs|] == rs;
    if k < |rs| {
      FrameAt(f, f.Frames(rs), rs, k);
      OneFrame(f, f.Frames(rs)[|f.Frames(rs[..k])|..], r, rs[k]);
      FramesSplit(f, rs, k);
    }
  }

  lemma StartsWithin<R>(f: Format<R>, buf: seq<byte>, n: nat, p: nat, r: R)
    requires p <= n <= |buf| && StartsWithFrame(f, buf[..n][p..], r)
    ensures StartsWithFrame(f, buf[p..], r) && |f.Frame(r)| <= n - p
  {}

  /** No frame starts where the next record is torn. */
  lemma TornTail<R(!new)>(f: Format<R>, rs: seq<R>, n: nat, k: nat, r: R)
    requires Injective(f) && f.AllFit(rs) && n <= |f.Frames(rs)| && k <= |rs|
    requires |f.Frames(rs[..k])| <= n && (k < |rs| ==> n < |f.Frames(rs[..k + 1])|)
    ensures !StartsWithFrame(f, f.Frames(rs)[..n][|f.Frames(rs[..k])|..], r)
  {
    if StartsWithFrame(f, f.Frames(rs)[..n][|f.Frames(rs[..k])|..], r) {
      StartsWithin(f, f.Frames(rs), n, |f.Frames(rs[..k])|, r);
      NextFrame(f, rs, k, r);
    }
  }

  /** Torn tails: any byte prefix of a log parses to exactly the records whose
      frames fit in it. Nothing is assumed of the checksum. */
  lemma PrefixParse<R(!new)>(f: Format<R>, rs: seq<R>, n: nat)
    requires Injective(f) && f.AllFit(rs) && n <= |f.Frames(rs)|
    ensures IsParse(f, f.Frames(rs)[..n], rs[..WholeRecords(f, rs, n)])
  {
    var k := WholeRecords(f, rs, n);
    var kept := rs[..k];
    FramesSplit(f, rs, k);
    assert f.Frames(kept) <= f.Frames(rs)[..n];
    forall r ensures !StartsWithFrame(f, f.Frames(rs)[..n][|f.Frames(kept)|..], r) {
      TornTail(f, rs, n, k, r);
    }
  }

  /** Recovering what recovery kept changes nothing, and a record appended after
      it is recovered behind the same records. */
  lemma ParseThenAppend<R(!new)>(f: Format<R>, buf: seq<byte>, rs: seq<R>, more: seq<R>)
    requires Injective(f) && IsParse(f, buf, rs) && f.AllFit(more)
    ensures IsParse(f, buf[..|f.Frames(rs)|] + f.Frames(more), rs + more)
  {
    var all := rs + more;
    FramesConcat(f, rs, more);
    assert buf[..|f.Frames(rs)|] == f.Frames(rs);
    assert f.AllFit(all);
    PrefixParse(f, all, |f.Frames(all)|);
    assert all[..|all|] == all;
    WholeRecordsMost(f, all, |f.Frames(all)|, |all|);
    assert f.Frames(all)[..|f.Frames(all)|] == f.Frames(all);
  }
}

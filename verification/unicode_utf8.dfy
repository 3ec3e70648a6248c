/**
 * UTF-8 as the formatter reads and writes it: the original scheme of section 2
 * of RFC 2279, with sequences of up to six bytes covering every non-negative
 * 32-bit `int`. Bit operations are written arithmetically: on a byte `b`,
 * `b & 0x3f` is `b % 64`, and `x >> 6` is `x / 64` for `x >= 0`.
 */
module Utf8 {
  import opened Wrappers

  /** An element of uncrustify's `vector<UINT8>`. */
  type Byte = x: int | 0 <= x < 0x100

  /** uncrustify's (32-bit) `int`. */
  type Int32 = x: int | -0x8000_0000 <= x < 0x8000_0000

  /** A trailing byte of a multi-byte sequence: `10xxxxxx`. */
  predicate IsContinuation(b: int) {
    0x80 <= b < 0xC0
  }

  /** The number of bytes `encode_utf8` uses for a non-negative code point. */
  function EncodedLength(ch: nat): (n: nat)
    ensures 1 <= n <= 6
  {
    if ch < 0x80 then 1
    else if ch < 0x800 then 2
    else if ch < 0x1_0000 then 3
    else if ch < 0x20_0000 then 4
    else if ch < 0x400_0000 then 5
    else 6
  }

  /**
   * `encode_utf8`: the bytes appended for `ch`; nothing for a negative value.
   */
  function EncodeUtf8(ch: Int32): (r: seq<Byte>)
    ensures ch < 0 <==> |r| == 0
    ensures ch >= 0 ==> |r| == EncodedLength(ch)
    ensures forall k :: 1 <= k < |r| ==> IsContinuation(r[k])
    ensures |r| == 1 ==> r[0] == ch
    ensures |r| > 1 ==> !IsContinuation(r[0]) && 0xC0 <= r[0] < 0xFE
  {
    if ch < 0 then
      []
    else if ch < 0x80 then
      [ch]
    else if ch < 0x800 then
      [0xC0 + ch / 0x40,
       0x80 + ch % 0x40]
    else if ch < 0x1_0000 then
      [0xE0 + ch / 0x1000,
       0x80 + (ch / 0x40) % 0x40,
       0x80 + ch % 0x40]
    else if ch < 0x20_0000 then
      [0xF0 + ch / 0x4_0000,
       0x80 + (ch / 0x1000) % 0x40,
       0x80 + (ch / 0x40) % 0x40,
       0x80 + ch % 0x40]
    else if ch < 0x400_0000 then
      [0xF8 + ch / 0x100_0000,
       0x80 + (ch / 0x4_0000) % 0x40,
       0x80 + (ch / 0x1000) % 0x40,
       0x80 + (ch / 0x40) % 0x40,
       0x80 + ch % 0x40]
    else
      [0xFC + ch / 0x4000_0000,
       0x80 + (ch / 0x100_0000) % 0x40,
       0x80 + (ch / 0x4_0000) % 0x40,
       0x80 + (ch / 0x1000) % 0x40,
       0x80 + (ch / 0x40) % 0x40,
       0x80 + ch % 0x40]
  }

  /** The encodings of `chs`, one after the other. */
  function EncodeAll(chs: seq<Int32>): seq<Byte> {
    if |chs| == 0 then [] else EncodeUtf8(chs[0]) + EncodeAll(chs[1..])
  }

  /**
   * How a lead byte starts a sequence: its payload bits and how many
   * continuation bytes follow; `None` for a byte no sequence starts with
   * (0x80-0xBF, 0xFE, 0xFF).
   */
  function LeadByte(b: Byte): (r: Option<(nat, nat)>)
    ensures r.None? <==> IsContinuation(b) || b >= 0xFE
    ensures r.Some? ==> r.value.1 <= 5 && r.value.0 < 0x80
  {
    if b < 0x80 then Some((b, 0))
    else if 0xC0 <= b < 0xE0 then Some((b % 0x20, 1))
    else if 0xE0 <= b < 0xF0 then Some((b % 0x10, 2))
    else if 0xF0 <= b < 0xF8 then Some((b % 0x08, 3))
    else if 0xF8 <= b < 0xFC then Some((b % 0x04, 4))
    else if 0xFC <= b < 0xFE then Some((b % 0x02, 5))
    else None
  }

  /** Shift six payload bits of each continuation byte into `v`, first byte first. */
  function Accumulate(v: int, conts: seq<Byte>): int
    decreases |conts|
  {
    if |conts| == 0 then v else Accumulate(v * 0x40 + conts[0] % 0x40, conts[1..])
  }

  predicate AllContinuation(bs: seq<Byte>) {
    forall k :: 0 <= k < |bs| ==> IsContinuation(bs[k])
  }

  /**
   * The loop of `decode_utf8` after the byte-order mark: decode sequence
   * after sequence; a bad lead byte, a bad continuation byte or a sequence
   * cut short by the end of the data fails the whole decode.
   */
  function DecodeSequences(b: seq<Byte>): (r: Option<seq<int>>)
    ensures |b| > 0 && (IsContinuation(b[0]) || b[0] >= 0xFE) ==> r.None?
    ensures r.Some? ==> |r.value| <= |b|
    decreases |b|
  {
    if |b| == 0 then
      Some([])
    else
      match LeadByte(b[0])
      case None => None
      case Some((v, cnt)) =>
        if |b| < 1 + cnt || !AllContinuation(b[1..1 + cnt]) then
          None
        else
          match DecodeSequences(b[1 + cnt..])
          case None => None
          case Some(rest) => Some([Accumulate(v, b[1..1 + cnt])] + rest)
  }

  /** The UTF-8 byte-order mark EF BB BF starts `b`. */
  predicate StartsWithBom(b: seq<Byte>) {
    |b| >= 3 && b[0] == 0xEF && b[1] == 0xBB && b[2] == 0xBF
  }

  /**
   * `decode_utf8`: skip a leading byte-order mark, then decode; `None` is the
   * source's `false`.
   */
  function DecodeUtf8(b: seq<Byte>): (r: Option<seq<int>>)
    ensures r.Some? ==> |r.value| <= |b|
  {
    if StartsWithBom(b) then DecodeSequences(b[3..]) else DecodeSequences(b)
  }

  /** `64^k` for the at most five continuation bytes of a sequence. */
  function Pow64(k: nat): (p: nat)
    requires k <= 5
    ensures p >= 1
  {
    if k == 0 then 1 else 0x40 * Pow64(k - 1)
  }

  /** The `k` continuation bytes carrying the low `6k` bits of `x`, most significant first. */
  function Conts(x: nat, k: nat): (r: seq<Byte>)
    requires k <= 5
    ensures |r| == k && AllContinuation(r)
  {
    if k == 0 then [] else [0x80 + (x / Pow64(k - 1)) % 0x40] + Conts(x, k - 1)
  }

  lemma DigitStep(x: nat, k: nat)
    requires k < 5
    ensures (x / Pow64(k + 1)) * 0x40 + (x / Pow64(k)) % 0x40 == x / Pow64(k)
  {
    if k == 0 {
      assert Pow64(1) == 0x40;
    } else if k == 1 {
      assert Pow64(2) == 0x1000;
    } else if k == 2 {
      assert Pow64(3) == 0x4_0000;
    } else if k == 3 {
      assert Pow64(4) == 0x100_0000;
    } else {
      assert Pow64(5) == 0x4000_0000;
    }
  }

  /** Accumulating the continuation bytes of `x` onto its high bits gives `x` back. */
  lemma {:induction false} AccumulateConts(x: nat, k: nat)
    requires k <= 5
    ensures Accumulate(x / Pow64(k), Conts(x, k)) == x
  {
    if k > 0 {
      var c := 0x80 + (x / Pow64(k - 1)) % 0x40;
      assert Conts(x, k) == [c] + Conts(x, k - 1);
      assert ([c] + Conts(x, k - 1))[1..] == Conts(x, k - 1);
      DigitStep(x, k - 1);
      assert (x / Pow64(k)) * 0x40 + c % 0x40 == x / Pow64(k - 1);
      AccumulateConts(x, k - 1);
    }
  }

  /** The continuation bytes of a code point, as `Conts` lists them. */
  lemma ContsUnfolded(ch: nat)
    ensures Conts(ch, 1) == [0x80 + ch % 0x40]
    ensures Conts(ch, 2) == [0x80 + (ch / 0x40) % 0x40] + Conts(ch, 1)
    ensures Conts(ch, 3) == [0x80 + (ch / 0x1000) % 0x40] + Conts(ch, 2)
    ensures Conts(ch, 4) == [0x80 + (ch / 0x4_0000) % 0x40] + Conts(ch, 3)
    ensures Conts(ch, 5) == [0x80 + (ch / 0x100_0000) % 0x40] + Conts(ch, 4)
  {
    assert Pow64(1) == 0x40 && Pow64(2) == 0x1000 && Pow64(3) == 0x4_0000;
    assert Pow64(4) == 0x100_0000;
  }

  /** The shape of an encoding: a lead byte announcing `n - 1` continuation bytes, then those bytes. */
  lemma EncodeShape(ch: Int32)
    requires ch >= 0
    ensures var e := EncodeUtf8(ch);
            var n := EncodedLength(ch);
            && LeadByte(e[0]) == Some((ch / Pow64(n - 1), n - 1))
            && e[1..] == Conts(ch, n - 1)
  {
    ContsUnfolded(ch);
    assert Pow64(1) == 0x40 && Pow64(2) == 0x1000 && Pow64(3) == 0x4_0000;
    assert Pow64(4) == 0x100_0000 && Pow64(5) == 0x4000_0000;
    if ch < 0x80 {
    } else if ch < 0x800 {
      EncodeShape2(ch);
    } else if ch < 0x1_0000 {
      EncodeShape3(ch);
    } else if ch < 0x20_0000 {
      EncodeShape4(ch);
    } else if ch < 0x400_0000 {
      EncodeShape5(ch);
    } else {
      EncodeShape6(ch);
    }
  }

  lemma EncodeShape2(ch: Int32)
    requires 0x80 <= ch < 0x800
    ensures EncodeUtf8(ch)[1..] == [0x80 + ch % 0x40]
    ensures LeadByte(EncodeUtf8(ch)[0]) == Some((ch / 0x40, 1))
  {
  }

  lemma EncodeShape3(ch: Int32)
    requires 0x800 <= ch < 0x1_0000
    ensures EncodeUtf8(ch)[1..] == [0x80 + (ch / 0x40) % 0x40] + [0x80 + ch % 0x40]
    ensures LeadByte(EncodeUtf8(ch)[0]) == Some((ch / 0x1000, 2))
  {
  }

  lemma EncodeShape4(ch: Int32)
    requires 0x1_0000 <= ch < 0x20_0000
    ensures EncodeUtf8(ch)[1..] == [0x80 + (ch / 0x1000) % 0x40] + [0x80 + (ch / 0x40) % 0x40] + [0x80 + ch % 0x40]
    ensures LeadByte(EncodeUtf8(ch)[0]) == Some((ch / 0x4_0000, 3))
  {
  }

  lemma EncodeShape5(ch: Int32)
    requires 0x20_0000 <= ch < 0x400_0000
    ensures EncodeUtf8(ch)[1..] == [0x80 + (ch / 0x4_0000) % 0x40] + [0x80 + (ch / 0x1000) % 0x40] + [0x80 + (ch / 0x40) % 0x40] + [0x80 + ch % 0x40]
    ensures LeadByte(EncodeUtf8(ch)[0]) == Some((ch / 0x100_0000, 4))
  {
  }

  lemma EncodeShape6(ch: Int32)
    requires 0x400_0000 <= ch < 0x8000_0000
    ensures EncodeUtf8(ch)[1..] == [0x80 + (ch / 0x100_0000) % 0x40] + [0x80 + (ch / 0x4_0000) % 0x40] + [0x80 + (ch / 0x1000) % 0x40] + [0x80 + (ch / 0x40) % 0x40] + [0x80 + ch % 0x40]
    ensures LeadByte(EncodeUtf8(ch)[0]) == Some((ch / 0x4000_0000, 5))
  {
  }

  /** `c` in front of a successful decode; a failed decode stays failed. */
  function Prepend(c: int, o: Option<seq<int>>): Option<seq<int>> {
    match o
    case None => None
    case Some(s) => Some([c] + s)
  }

  /** Decoding an encoded code point followed by anything yields the code point, then the rest's decode. */
  lemma DecodeEncoded(ch: Int32, rest: seq<Byte>)
    requires ch >= 0
    ensures DecodeSequences(EncodeUtf8(ch) + rest) == Prepend(ch, DecodeSequences(rest))
  {
    var e := EncodeUtf8(ch);
    var n := EncodedLength(ch);
    var b := e + rest;
    EncodeShape(ch);
    assert b[0] == e[0];
    assert b[1..1 + (n - 1)] == e[1..] == Conts(ch, n - 1);
    assert b[1 + (n - 1)..] == rest;
    AccumulateConts(ch, n - 1);
  }

  /** Every encoded sequence decodes back to its code points, byte-order-mark skipping aside. */
  lemma {:induction false} DecodeSequencesEncodeAll(chs: seq<Int32>)
    requires forall k :: 0 <= k < |chs| ==> chs[k] >= 0
    ensures DecodeSequences(EncodeAll(chs)) == Some(chs)
  {
    if |chs| > 0 {
      DecodeSequencesEncodeAll(chs[1..]);
      DecodeEncoded(chs[0], EncodeAll(chs[1..]));
      assert [chs[0]] + chs[1..] == chs;
    }
  }

  /** Only the encoding of U+FEFF starts with 0xEF 0xBB 0xBF; any encoding starting with 0xEF has three bytes. */
  lemma EncodeLeadEF(ch: Int32)
    requires ch >= 0
    ensures EncodeUtf8(ch)[0] == 0xEF ==> |EncodeUtf8(ch)| == 3
    ensures |EncodeUtf8(ch)| == 3 && StartsWithBom(EncodeUtf8(ch)) <==> ch == 0xFEFF
  {
    var n: nat := ch;
    if 0x800 <= n < 0x1_0000 {
      EncodeShape3(ch);
      if StartsWithBom(EncodeUtf8(ch)) {
        assert n == (n / 0x1000) * 0x1000 + ((n / 0x40) % 0x40) * 0x40 + n % 0x40;
      }
    } else if n < 0x800 {
      assert EncodeUtf8(ch)[0] < 0xE0;
    } else {
      assert EncodeUtf8(ch)[0] >= 0xF0;
    }
  }

  /** Only U+FEFF encodes to the byte-order mark, and no other text starts with it. */
  lemma OnlyFeffStartsWithBom(chs: seq<Int32>)
    requires forall k :: 0 <= k < |chs| ==> chs[k] >= 0
    ensures StartsWithBom(EncodeAll(chs)) <==> |chs| > 0 && chs[0] == 0xFEFF
  {
    if |chs| > 0 {
      var e := EncodeUtf8(chs[0]);
      var all := EncodeAll(chs);
      assert all == e + EncodeAll(chs[1..]);
      EncodeLeadEF(chs[0]);
      assert all[0] == e[0];
      if e[0] == 0xEF {
        assert all[1] == e[1] && all[2] == e[2];
      }
    }
  }

  /**
   * Round trip: decoding the UTF-8 encoding of non-negative code points gives
   * them back, unless the text starts with U+FEFF, whose encoding is taken
   * for a byte-order mark.
   */
  lemma RoundTrip(chs: seq<Int32>)
    requires forall k :: 0 <= k < |chs| ==> chs[k] >= 0
    requires |chs| == 0 || chs[0] != 0xFEFF
    ensures DecodeUtf8(EncodeAll(chs)) == Some(chs)
  {
    OnlyFeffStartsWithBom(chs);
    DecodeSequencesEncodeAll(chs);
  }

  /** The single-code-point round trip of `encode_utf8` and `decode_utf8`. */
  lemma RoundTripOne(ch: Int32)
    requires ch >= 0 && ch != 0xFEFF
    ensures DecodeUtf8(EncodeUtf8(ch)) == Some([ch])
  {
    assert [ch][1..] == [];
    assert EncodeAll([ch]) == EncodeUtf8(ch) + EncodeAll([]);
    assert EncodeUtf8(ch) + [] == EncodeUtf8(ch);
    RoundTrip([ch]);
  }

  /** An encoded U+FEFF (the byte-order mark) followed by encoded code points decodes to the code points after it. */
  lemma MarkedDecodeAll(chs: seq<Int32>)
    requires forall k :: 0 <= k < |chs| ==> chs[k] >= 0
    ensures StartsWithBom(EncodeUtf8(0xFEFF) + EncodeAll(chs))
    ensures DecodeUtf8(EncodeUtf8(0xFEFF) + EncodeAll(chs)) == Some(chs)
  {
    var body := EncodeAll(chs);
    FeffIsSwallowed();
    var b := EncodeUtf8(0xFEFF) + body;
    assert b == [0xEF, 0xBB, 0xBF] + body;
    assert StartsWithBom(b) && b[3..] == body;
    DecodeSequencesEncodeAll(chs);
  }

  /** A lone U+FEFF is the byte-order mark and decodes to nothing. */
  lemma FeffIsSwallowed()
    ensures EncodeUtf8(0xFEFF) == [0xEF, 0xBB, 0xBF]
    ensures DecodeUtf8(EncodeUtf8(0xFEFF)) == Some([])
  {
  }

  /** A multi-byte sequence cut short by the end of the data is rejected. */
  lemma TruncatedRejected(ch: Int32, k: nat)
    requires ch >= 0x80 && 1 <= k < EncodedLength(ch)
    ensures DecodeUtf8(EncodeUtf8(ch)[..k]) == None
  {
    var e := EncodeUtf8(ch);
    EncodeShape(ch);
    EncodeLeadEF(ch);
    assert e[..k][0] == e[0];
  }

  /** A multi-byte sequence with any continuation byte replaced by a non-`10xxxxxx` byte is rejected. */
  lemma BadContinuationRejected(ch: Int32, j: nat, x: Byte)
    requires ch >= 0x80 && 1 <= j < EncodedLength(ch) && !IsContinuation(x)
    ensures DecodeUtf8(EncodeUtf8(ch)[j := x]) == None
  {
    var e := EncodeUtf8(ch);
    var b := e[j := x];
    var n := EncodedLength(ch);
    EncodeShape(ch);
    assert b[0] == e[0];
    assert !StartsWithBom(b);
    assert b[1..1 + (n - 1)][j - 1] == x;
  }

  /** Data starting with a byte no sequence can start with is rejected. */
  lemma BadLeadRejected(b: seq<Byte>)
    requires |b| > 0 && (IsContinuation(b[0]) || b[0] >= 0xFE)
    ensures DecodeUtf8(b) == None
  {
  }
}

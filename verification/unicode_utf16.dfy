/**
 * UTF-16 as the formatter reads and writes it (RFC 2781): words of two bytes
 * in big- or little-endian order, and surrogate pairs for the code points
 * from U+10000 to U+10FFFF (section 2.1 for encoding, 2.2 for decoding).
 */
module Utf16 {
  import opened Wrappers
  import opened Utf8

  /** The character encodings the formatter distinguishes (`char_encoding_e`). */
  datatype Encoding = Ascii | Bytes | Utf8Enc | Utf16Le | Utf16Be

  predicate IsHighSurrogate(w: int) {
    0xD800 <= w < 0xDC00
  }

  predicate IsLowSurrogate(w: int) {
    0xDC00 <= w < 0xE000
  }

  /** The code points UTF-16 can carry: U+0000 to U+D7FF and U+E000 to U+10FFFF. */
  predicate IsScalar(ch: int) {
    (0 <= ch < 0xD800) || (0xE000 <= ch < 0x11_0000)
  }

  /**
   * `get_word`: the 16-bit word at `idx` in the given byte order, or -1 when
   * fewer than two bytes remain; the index always advances by two.
   */
  function GetWord(b: seq<Byte>, idx: nat, be: bool): (r: (int, nat))
    ensures r.1 == idx + 2
    ensures r.0 == -1 <==> idx + 2 > |b|
    ensures idx + 2 <= |b| ==> 0 <= r.0 < 0x1_0000
    ensures idx + 2 <= |b| ==> r.0 / 0x100 == (if be then b[idx] else b[idx + 1])
    ensures idx + 2 <= |b| ==> r.0 % 0x100 == (if be then b[idx + 1] else b[idx])
  {
    if idx + 2 > |b| then (-1, idx + 2)
    else if be then ((b[idx] as int) * 0x100 + b[idx + 1], idx + 2)
    else (b[idx] + (b[idx + 1] as int) * 0x100, idx + 2)
  }

  /**
   * The loop of `decode_utf16` from byte `idx`: a high surrogate must be
   * followed by a low one and the pair yields 0x10000 plus their combined
   * ten-bit halves; a lone low surrogate fails.
   */
  function DecodeWords(b: seq<Byte>, idx: nat, be: bool): (r: Option<seq<int>>)
    ensures r.Some? ==> forall k :: 0 <= k < |r.value| ==> IsScalar(r.value[k])
    decreases |b| - idx
  {
    if idx >= |b| then
      Some([])
    else
      var (ch, i1) := GetWord(b, idx, be);
      if IsHighSurrogate(ch) then
        var (tmp, i2) := GetWord(b, i1, be);
        if !IsLowSurrogate(tmp) then
          None
        else
          var pair := (ch % 0x400) * 0x400 + tmp % 0x400 + 0x1_0000;
          Prepend(pair, DecodeWords(b, i2, be))
      else if (0 <= ch < 0xD800) || ch >= 0xE000 then
        Prepend(ch, DecodeWords(b, i1, be))
      else
        None
  }

  /** What `decode_utf16` reports: the decoded text (`None` for `false`) and the encoding it set. */
  datatype Utf16Decoded = Utf16Decoded(chars: Option<seq<int>>, enc: Encoding)

  /**
   * `decode_utf16`: the byte order comes from a byte-order mark, or is guessed
   * from zero bytes in the first three words; `enc` is the encoding in effect
   * on entry, left alone when the length is rejected.
   */
  function DecodeUtf16(b: seq<Byte>, enc: Encoding): (r: Utf16Decoded)
    ensures |b| % 2 == 1 || |b| < 2 ==> r == Utf16Decoded(None, enc)
    ensures r.chars.Some? ==> r.enc == Utf16Be || r.enc == Utf16Le
  {
    if |b| % 2 == 1 then
      Utf16Decoded(None, enc)
    else if |b| < 2 then
      Utf16Decoded(None, enc)
    else if b[0] == 0xFE && b[1] == 0xFF then
      Utf16Decoded(DecodeWords(b, 2, true), Utf16Be)
    else if b[0] == 0xFF && b[1] == 0xFE then
      Utf16Decoded(DecodeWords(b, 2, false), Utf16Le)
    else if |b| >= 6 && b[0] == 0 && b[2] == 0 && b[4] == 0 then
      Utf16Decoded(DecodeWords(b, 0, true), Utf16Be)
    else if |b| >= 6 && b[1] == 0 && b[3] == 0 && b[5] == 0 then
      Utf16Decoded(DecodeWords(b, 0, false), Utf16Le)
    else
      Utf16Decoded(None, Ascii)
  }

  /** The two bytes of a 16-bit word in the given byte order. */
  function WordBytes(w: int, be: bool): (r: seq<Byte>)
    requires 0 <= w < 0x1_0000
    ensures |r| == 2
  {
    if be then [w / 0x100, w % 0x100] else [w % 0x100, w / 0x100]
  }

  /**
   * The bytes `write_utf16` emits for `ch`: one word for U+0000-U+D7FF and
   * U+E000-U+FFFF, a surrogate pair for U+10000-U+10FFFF, nothing otherwise.
   */
  function Utf16Bytes(ch: int, be: bool): (r: seq<Byte>)
    ensures !IsScalar(ch) <==> |r| == 0
    ensures IsScalar(ch) && ch < 0x1_0000 ==> |r| == 2
    ensures ch >= 0x1_0000 && IsScalar(ch) ==> |r| == 4
  {
    if (0 <= ch < 0xD800) || (0xE000 <= ch < 0x1_0000) then
      WordBytes(ch, be)
    else if 0x1_0000 <= ch < 0x11_0000 then
      var v1 := ch - 0x1_0000;
      var w1 := 0xD800 + v1 / 0x400;
      var w2 := 0xDC00 + v1 % 0x400;
      WordBytes(w1, be) + WordBytes(w2, be)
    else
      []
  }

  /** The UTF-16 encodings of `chs`, one after the other. */
  function Utf16All(chs: seq<int>, be: bool): seq<Byte> {
    if |chs| == 0 then [] else Utf16Bytes(chs[0], be) + Utf16All(chs[1..], be)
  }

  /** Reading back a word written by `WordBytes` gives the word. */
  lemma GetWordBytes(w: int, be: bool, pre: seq<Byte>, post: seq<Byte>)
    requires 0 <= w < 0x1_0000
    ensures GetWord(pre + WordBytes(w, be) + post, |pre|, be).0 == w
  {
    var b := pre + WordBytes(w, be) + post;
    assert b[|pre|] == WordBytes(w, be)[0] && b[|pre| + 1] == WordBytes(w, be)[1];
  }

  /** Splitting a 20-bit value into surrogate halves and joining them again gives the value back. */
  lemma SurrogateBits(v: int)
    requires 0 <= v < 0x10_0000
    ensures ((0xD800 + v / 0x400) % 0x400) * 0x400 + (0xDC00 + v % 0x400) % 0x400 == v
  {
    var hi := v / 0x400;
    var lo := v % 0x400;
    assert 0 <= hi < 0x400 && 0 <= lo < 0x400;
    assert (0xD800 + hi) % 0x400 == hi;
    assert (0xDC00 + lo) % 0x400 == lo;
    assert hi * 0x400 + lo == v;
  }

  /** Decoding one encoded code point followed by more words yields the code point, then the rest. */
  lemma DecodeWordsEncoded(ch: int, be: bool, pre: seq<Byte>, rest: seq<Byte>)
    requires IsScalar(ch)
    ensures DecodeWords(pre + Utf16Bytes(ch, be) + rest, |pre|, be)
            == Prepend(ch, DecodeWords(pre + Utf16Bytes(ch, be) + rest, |pre| + |Utf16Bytes(ch, be)|, be))
  {
    var e := Utf16Bytes(ch, be);
    var b := pre + e + rest;
    if ch < 0x1_0000 {
      GetWordBytes(ch, be, pre, rest);
    } else {
      var v1 := ch - 0x1_0000;
      var w1 := 0xD800 + v1 / 0x400;
      var w2 := 0xDC00 + v1 % 0x400;
      assert b == pre + WordBytes(w1, be) + (WordBytes(w2, be) + rest);
      GetWordBytes(w1, be, pre, WordBytes(w2, be) + rest);
      assert b == (pre + WordBytes(w1, be)) + WordBytes(w2, be) + rest;
      GetWordBytes(w2, be, pre + WordBytes(w1, be), rest);
      SurrogateBits(v1);
    }
  }

  /** Decoding the words of encoded code points, from wherever they start, gives the code points back. */
  lemma {:induction false} DecodeWordsAll(chs: seq<int>, be: bool, pre: seq<Byte>)
    requires forall k :: 0 <= k < |chs| ==> IsScalar(chs[k])
    ensures DecodeWords(pre + Utf16All(chs, be), |pre|, be) == Some(chs)
    decreases |chs|
  {
    if |chs| == 0 {
      assert pre + Utf16All(chs, be) == pre;
    } else {
      var e := Utf16Bytes(chs[0], be);
      var tail := Utf16All(chs[1..], be);
      var front := pre + e;
      var b := front + tail;
      assert pre + Utf16All(chs, be) == b;
      DecodeWordsEncoded(chs[0], be, pre, tail);
      DecodeWordsAll(chs[1..], be, front);
      assert |front| == |pre| + |e|;
      assert DecodeWords(b, |pre|, be) == Prepend(chs[0], Some(chs[1..]));
      assert [chs[0]] + chs[1..] == chs;
    }
  }

  /** Any UTF-16 text has an even number of bytes. */
  lemma {:induction false} Utf16AllEven(chs: seq<int>, be: bool)
    ensures |Utf16All(chs, be)| % 2 == 0
  {
    if |chs| > 0 {
      Utf16AllEven(chs[1..], be);
    }
  }

  /**
   * Round trip: a byte-order mark (the encoding of U+FEFF) followed by the
   * encoding of scalar values decodes back to those values, in either byte order.
   */
  lemma RoundTrip(chs: seq<int>, be: bool)
    requires forall k :: 0 <= k < |chs| ==> IsScalar(chs[k])
    ensures DecodeUtf16(Utf16Bytes(0xFEFF, be) + Utf16All(chs, be), Ascii)
            == Utf16Decoded(Some(chs), if be then Utf16Be else Utf16Le)
  {
    var body := Utf16All(chs, be);
    Utf16AllEven(chs, be);
    DecodeWordsAll(chs, be, MarkBytes(be));
    MarkedRoundTrip(body, chs, be);
    FeffIsMark(be);
  }

  lemma MarkedRoundTrip(body: seq<Byte>, chs: seq<int>, be: bool)
    requires |body| % 2 == 0 && DecodeWords(MarkBytes(be) + body, 2, be) == Some(chs)
    ensures DecodeUtf16(MarkBytes(be) + body, Ascii) == Utf16Decoded(Some(chs), if be then Utf16Be else Utf16Le)
  {
    var b := MarkBytes(be) + body;
    assert |b| == |body| + 2;
    assert (|body| + 2) % 2 == 0;
    assert b[..2] == MarkBytes(be);
    MarkedDecode(b, be, Ascii);
  }

  /** The two bytes of the byte-order mark in the given byte order. */
  function MarkBytes(be: bool): seq<Byte> {
    if be then [0xFE, 0xFF] else [0xFF, 0xFE]
  }

  lemma FeffIsMark(be: bool)
    ensures Utf16Bytes(0xFEFF, be) == MarkBytes(be)
  {
  }

  /** Data starting with a byte-order mark is decoded word by word after it, in the mark's byte order. */
  lemma MarkedDecode(b: seq<Byte>, be: bool, enc: Encoding)
    requires |b| % 2 == 0 && |b| >= 2 && b[..2] == MarkBytes(be)
    ensures DecodeUtf16(b, enc) == Utf16Decoded(DecodeWords(b, 2, be), if be then Utf16Be else Utf16Le)
  {
    assert b[0] == b[..2][0] && b[1] == b[..2][1];
  }

  /** A low surrogate where a code point should start is rejected. */
  lemma LoneLowSurrogateRejected(b: seq<Byte>, idx: nat, be: bool)
    requires idx < |b| && IsLowSurrogate(GetWord(b, idx, be).0)
    ensures DecodeWords(b, idx, be) == None
  {
  }

  /** A high surrogate not followed by a low surrogate (or by nothing) is rejected. */
  lemma UnpairedHighSurrogateRejected(b: seq<Byte>, idx: nat, be: bool)
    requires idx < |b| && IsHighSurrogate(GetWord(b, idx, be).0)
    requires !IsLowSurrogate(GetWord(b, idx + 2, be).0)
    ensures DecodeWords(b, idx, be) == None
  {
  }

  /** A surrogate pair decodes to 0x10000 plus the ten bits of each half, high half first. */
  lemma SurrogatePairDecoded(b: seq<Byte>, idx: nat, be: bool)
    requires idx < |b|
    requires IsHighSurrogate(GetWord(b, idx, be).0) && IsLowSurrogate(GetWord(b, idx + 2, be).0)
    requires DecodeWords(b, idx, be).Some?
    ensures var hi := GetWord(b, idx, be).0;
            var lo := GetWord(b, idx + 2, be).0;
            DecodeWords(b, idx, be).value[0] == 0x1_0000 + (hi - 0xD800) * 0x400 + (lo - 0xDC00)
  {
  }
}

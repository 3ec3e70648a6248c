/**
 * Detection of the input's character encoding and its decoding into code
 * points (`decode_unicode`): a byte-order mark decides when there is one
 * (section 3.2 of RFC 2781 for UTF-16); otherwise plain ASCII, then UTF-16
 * if about half the bytes are zero, then UTF-8, and raw bytes as the last resort.
 */
module Unicode {
  import opened Wrappers
  import opened Utf8
  import opened Utf16

  /** What `is_ascii` reports: the verdict and the two counts it keeps. */
  datatype AsciiScan = AsciiScan(ascii: bool, nonAsciiCnt: nat, zeroCnt: nat)

  /**
   * `is_ascii`: count the bytes with the high bit set and the zero bytes;
   * the data is ASCII when both counts are zero.
   */
  function IsAscii(data: seq<Byte>): (r: AsciiScan)
    ensures r.ascii <==> forall k :: 0 <= k < |data| ==> 0 < data[k] < 0x80
    ensures r.nonAsciiCnt == 0 <==> forall k :: 0 <= k < |data| ==> data[k] < 0x80
    ensures r.zeroCnt == 0 <==> forall k :: 0 <= k < |data| ==> data[k] != 0
    ensures r.nonAsciiCnt <= |data| && r.zeroCnt <= |data|
    decreases |data|
  {
    if |data| == 0 then
      AsciiScan(true, 0, 0)
    else
      var rest := IsAscii(data[1..]);
      var high := if data[0] >= 0x80 then 1 else 0;
      var zero := if data[0] == 0 then 1 else 0;
      var nonAscii := rest.nonAsciiCnt + high;
      var zeros := rest.zeroCnt + zero;
      assert forall k :: 1 <= k < |data| ==> data[k] == data[1..][k - 1];
      AsciiScan(nonAscii + zeros == 0, nonAscii, zeros)
  }

  /** `decode_bytes`: every byte becomes the code point of the same value. */
  function DecodeBytes(data: seq<Byte>): (r: seq<int>)
    ensures |r| == |data| && forall k :: 0 <= k < |data| ==> r[k] == data[k] as int
  {
    seq(|data|, k requires 0 <= k < |data| => data[k] as int)
  }

  /** What `decode_bom` reports: whether a byte-order mark was found, and the encoding it set. */
  datatype Bom = Bom(found: bool, enc: Encoding)

  /**
   * `decode_bom`: FE FF is UTF-16 big-endian, FF FE UTF-16 little-endian,
   * EF BB BF UTF-8; anything else is no mark, and the encoding is set to ASCII.
   */
  function DecodeBom(data: seq<Byte>): (r: Bom)
    ensures r.found <==> r.enc != Ascii
    ensures r.found <==> |data| >= 2 && (data[..2] == [0xFE, 0xFF] || data[..2] == [0xFF, 0xFE] || StartsWithBom(data))
    ensures r.enc == Utf16Be <==> |data| >= 2 && data[..2] == [0xFE, 0xFF]
    ensures r.enc == Utf16Le <==> |data| >= 2 && data[..2] == [0xFF, 0xFE]
    ensures r.enc == Utf8Enc <==> StartsWithBom(data)
  {
    if |data| >= 2 then
      if data[0] == 0xFE && data[1] == 0xFF then
        Bom(true, Utf16Be)
      else if data[0] == 0xFF && data[1] == 0xFE then
        Bom(true, Utf16Le)
      else if |data| >= 3 && data[0] == 0xEF && data[1] == 0xBB && data[2] == 0xBF then
        Bom(true, Utf8Enc)
      else
        Bom(false, Ascii)
    else
      Bom(false, Ascii)
  }

  /** Unmarked data is taken for UTF-16 when more than a quarter and at most half of its bytes are zero. */
  predicate Utf16Guess(data: seq<Byte>) {
    var zeros := IsAscii(data).zeroCnt;
    zeros > |data| / 4 && zeros <= |data| / 2
  }

  /** What `decode_unicode` reports: success, the code points, the encoding and whether there was a mark. */
  datatype Decoded = Decoded(ok: bool, chars: seq<int>, enc: Encoding, hasBom: bool)

  /**
   * `decode_unicode`. uncrustify leaves the output partly filled when a
   * marked input fails to decode; the model gives the empty sequence there.
   */
  function DecodeUnicode(data: seq<Byte>): (r: Decoded)
    ensures r.hasBom <==> DecodeBom(data).found
    ensures !r.hasBom ==> r.ok
    ensures !r.hasBom && (r.enc == Ascii || r.enc == Bytes) ==> r.chars == DecodeBytes(data)
    ensures !r.hasBom && r.enc == Ascii <==> IsAscii(data).ascii
    ensures !r.hasBom && !IsAscii(data).ascii && Utf16Guess(data) && DecodeUtf16(data, Ascii).chars.Some? ==>
              r == Decoded(true, DecodeUtf16(data, Ascii).chars.value, DecodeUtf16(data, Ascii).enc, false)
    ensures !r.hasBom && !IsAscii(data).ascii && !(Utf16Guess(data) && DecodeUtf16(data, Ascii).chars.Some?)
              && DecodeUtf8(data).Some? ==>
              r == Decoded(true, DecodeUtf8(data).value, Utf8Enc, false)
    ensures !r.hasBom && !IsAscii(data).ascii && !(Utf16Guess(data) && DecodeUtf16(data, Ascii).chars.Some?)
              && DecodeUtf8(data).None? ==>
              r == Decoded(true, DecodeBytes(data), Bytes, false)
    ensures !r.hasBom && r.enc == Bytes ==> DecodeUtf8(data).None?
  {
    var bom := DecodeBom(data);
    if bom.found then
      if bom.enc == Utf8Enc then
        var u := DecodeUtf8(data);
        Decoded(u.Some?, u.GetOr([]), Utf8Enc, true)
      else
        var u := DecodeUtf16(data, bom.enc);
        Decoded(u.chars.Some?, u.chars.GetOr([]), u.enc, true)
    else
      var scan := IsAscii(data);
      if scan.ascii then
        Decoded(true, DecodeBytes(data), Ascii, false)
      else
        var u16 := if Utf16Guess(data) then DecodeUtf16(data, Ascii) else Utf16Decoded(None, Ascii);
        if u16.chars.Some? then
          Decoded(true, u16.chars.value, u16.enc, false)
        else
          var u8 := DecodeUtf8(data);
          if u8.Some? then Decoded(true, u8.value, Utf8Enc, false)
          else Decoded(true, DecodeBytes(data), Bytes, false)
  }

  /** The byte-order marks the encoders write for U+FEFF are the ones `decode_bom` detects. */
  lemma BomOfEncodedFeff(be: bool, rest: seq<Byte>)
    ensures DecodeBom(Utf16Bytes(0xFEFF, be) + rest) == Bom(true, if be then Utf16Be else Utf16Le)
    ensures DecodeBom(EncodeUtf8(0xFEFF) + rest) == Bom(true, Utf8Enc)
  {
    assert Utf16Bytes(0xFEFF, be) == if be then [0xFE, 0xFF] else [0xFF, 0xFE];
    assert EncodeUtf8(0xFEFF) == [0xEF, 0xBB, 0xBF];
  }

  /**
   * Round trip through `decode_unicode` for UTF-16: a byte-order mark and the
   * encoded scalar values decode back to the values, with the mark's byte order.
   */
  lemma Utf16RoundTrip(chs: seq<int>, be: bool)
    requires forall k :: 0 <= k < |chs| ==> IsScalar(chs[k])
    ensures DecodeUnicode(Utf16Bytes(0xFEFF, be) + Utf16All(chs, be))
            == Decoded(true, chs, if be then Utf16Be else Utf16Le, true)
  {
    FeffIsMark(be);
    var b := MarkBytes(be) + Utf16All(chs, be);
    Utf16AllEven(chs, be);
    Utf16.RoundTrip(chs, be);
    MarkedDecode(b, be, Ascii);
    MarkedDecode(b, be, if be then Utf16Be else Utf16Le);
    assert b[..2] == MarkBytes(be);
    assert DecodeBom(b) == Bom(true, if be then Utf16Be else Utf16Le) by {
      assert b[0] == MarkBytes(be)[0] && b[1] == MarkBytes(be)[1];
    }
  }

  /**
   * Round trip through `decode_unicode` for UTF-8: a byte-order mark and the
   * encoded code points decode back to all the code points, U+FEFF first included.
   */
  lemma Utf8RoundTrip(chs: seq<Int32>)
    requires forall k :: 0 <= k < |chs| ==> chs[k] >= 0
    ensures DecodeUnicode(EncodeUtf8(0xFEFF) + EncodeAll(chs)) == Decoded(true, chs, Utf8Enc, true)
  {
    MarkedDecodeAll(chs);
    Utf8Marked(EncodeUtf8(0xFEFF) + EncodeAll(chs));
  }

  /** Data starting with the UTF-8 byte-order mark goes to the UTF-8 decoder. */
  lemma Utf8Marked(b: seq<Byte>)
    requires StartsWithBom(b)
    ensures DecodeUnicode(b) == Decoded(DecodeUtf8(b).Some?, DecodeUtf8(b).GetOr([]), Utf8Enc, true)
  {
    assert DecodeBom(b) == Bom(true, Utf8Enc);
  }

  /** Without a byte-order mark, plain ASCII text decodes to itself. */
  lemma AsciiUnchanged(data: seq<Byte>)
    requires forall k :: 0 <= k < |data| ==> 0 < data[k] < 0x80
    ensures DecodeUnicode(data) == Decoded(true, DecodeBytes(data), Ascii, false)
  {
    assert !DecodeBom(data).found by {
      if |data| >= 2 {
        assert data[0] < 0x80;
      }
    }
  }

  /**
   * Round trip through `decode_unicode` for unmarked UTF-8: code points that
   * are not all ASCII, contain no NUL and do not start with U+FEFF are
   * encoded without zero bytes, so neither the ASCII test nor the UTF-16
   * guess takes them, and the UTF-8 decoder gives them back.
   */
  lemma Utf8Unmarked(chs: seq<Int32>, i: nat)
    requires forall k :: 0 <= k < |chs| ==> chs[k] > 0
    requires i < |chs| && chs[i] >= 0x80
    requires chs[0] != 0xFEFF
    ensures DecodeUnicode(EncodeAll(chs)) == Decoded(true, chs, Utf8Enc, false)
  {
    var data := EncodeAll(chs);
    NoMarkInEncoded(chs);
    EncodeAllHighByte(chs, i);
    EncodeAllNoZero(chs);
    NoGuessWithoutZeros(data);
    Utf8.RoundTrip(chs);
    Utf8Fallback(data);
  }

  /** Unmarked data that is neither ASCII nor taken for UTF-16 goes to the UTF-8 decoder. */
  lemma Utf8Fallback(data: seq<Byte>)
    requires !DecodeBom(data).found && !Utf16Guess(data) && DecodeUtf8(data).Some?
    requires exists j :: 0 <= j < |data| && data[j] >= 0x80
    ensures DecodeUnicode(data) == Decoded(true, DecodeUtf8(data).value, Utf8Enc, false)
  {
    assert !IsAscii(data).ascii;
  }

  /** Data without zero bytes is never taken for UTF-16. */
  lemma NoGuessWithoutZeros(data: seq<Byte>)
    requires forall j :: 0 <= j < |data| ==> data[j] != 0
    ensures !Utf16Guess(data)
  {
    assert IsAscii(data).zeroCnt == 0;
  }

  /** Encoded code points not starting with U+FEFF carry no byte-order mark. */
  lemma NoMarkInEncoded(chs: seq<Int32>)
    requires forall k :: 0 <= k < |chs| ==> chs[k] >= 0
    requires |chs| > 0 && chs[0] != 0xFEFF
    ensures !DecodeBom(EncodeAll(chs)).found
  {
    var data := EncodeAll(chs);
    OnlyFeffStartsWithBom(chs);
    assert data[0] == EncodeUtf8(chs[0])[0] < 0xFE;
    assert |data| >= 2 ==> data[..2][0] == data[0];
  }

  /** Encoding code points other than NUL never yields a zero byte. */
  lemma {:induction false} EncodeAllNoZero(chs: seq<Int32>)
    requires forall k :: 0 <= k < |chs| ==> chs[k] > 0
    ensures forall j :: 0 <= j < |EncodeAll(chs)| ==> EncodeAll(chs)[j] != 0
  {
    if |chs| > 0 {
      EncodeAllNoZero(chs[1..]);
      var head := EncodeUtf8(chs[0]);
      assert forall j :: 0 <= j < |head| ==> head[j] != 0;
    }
  }

  /** A code point of 0x80 or more puts a byte of 0x80 or more into the encoding. */
  lemma {:induction false} EncodeAllHighByte(chs: seq<Int32>, i: nat)
    requires forall k :: 0 <= k < |chs| ==> chs[k] >= 0
    requires i < |chs| && chs[i] >= 0x80
    ensures exists j :: 0 <= j < |EncodeAll(chs)| && EncodeAll(chs)[j] >= 0x80
  {
    var head := EncodeUtf8(chs[0]);
    assert EncodeAll(chs) == head + EncodeAll(chs[1..]);
    if i == 0 {
      assert EncodeAll(chs)[0] == head[0] >= 0x80;
    } else {
      EncodeAllHighByte(chs[1..], i - 1);
      var j :| 0 <= j < |EncodeAll(chs[1..])| && EncodeAll(chs[1..])[j] >= 0x80;
      assert EncodeAll(chs)[|head| + j] >= 0x80;
    }
  }
}

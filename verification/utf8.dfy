/** Strict UTF-8 as defined by section 4 of RFC 3629, the decoding Python
    performs for `bytes.decode("utf-8")` with the default "strict" error
    handler, and the encoding `str.encode("utf-8")` performs.

    Well-formed sequences (section 4 of RFC 3629):
      UTF8-1 = %x00-7F
      UTF8-2 = %xC2-DF UTF8-tail
      UTF8-3 = %xE0 %xA0-BF UTF8-tail / %xE1-EC 2( UTF8-tail ) /
               %xED %x80-9F UTF8-tail / %xEE-EF 2( UTF8-tail )
      UTF8-4 = %xF0 %x90-BF 2( UTF8-tail ) / %xF1-F3 3( UTF8-tail ) /
               %xF4 %x80-8F 2( UTF8-tail )
      UTF8-tail = %x80-BF
    so overlong forms, surrogates (U+D800..U+DFFF) and code points above
    U+10FFFF are all rejected. Dafny's `char` is exactly a Unicode scalar
    value, the set these sequences encode. */
module Utf8 {
  import opened Wrappers

  type Byte = b: int | 0 <= b < 256
  type Bytes = seq<Byte>

  predicate IsTail(b: Byte) {
    0x80 <= b <= 0xBF
  }

  /** Length of the sequence a lead byte starts, 0 if it can start none. */
  function SeqLength(b0: Byte): (n: nat)
    ensures n <= 4
  {
    if b0 <= 0x7F then 1
    else if 0xC2 <= b0 <= 0xDF then 2
    else if 0xE0 <= b0 <= 0xEF then 3
    else if 0xF0 <= b0 <= 0xF4 then 4
    else 0
  }

  /** Range allowed for the second byte: narrower than UTF8-tail after
      E0, ED, F0 and F4. */
  function SecondLow(b0: Byte): Byte {
    if b0 == 0xE0 then 0xA0 else if b0 == 0xF0 then 0x90 else 0x80
  }

  function SecondHigh(b0: Byte): Byte {
    if b0 == 0xED then 0x9F else if b0 == 0xF4 then 0x8F else 0xBF
  }

  /** Appends the six payload bits of a tail byte to a partial code point. */
  function Shift(acc: int, tail: Byte): int {
    acc * 64 + (tail - 0x80)
  }

  /** The first well-formed sequence of bs, as the character it encodes and
      its length; None if bs does not start with one. */
  function DecodeFirst(bs: Bytes): (r: Option<(char, nat)>)
    requires |bs| > 0
    ensures r.Some? ==> 1 <= r.value.1 <= 4 && r.value.1 <= |bs|
  {
    var b0 := bs[0];
    var n := SeqLength(b0);
    if n == 0 || |bs| < n then None
    else if n == 1 then Some((b0 as char, 1))
    else if !(SecondLow(b0) <= bs[1] <= SecondHigh(b0)) then None
    else if n == 2 then Some((Shift(b0 - 0xC0, bs[1]) as char, 2))
    else if !IsTail(bs[2]) then None
    else if n == 3 then Some((Shift(Shift(b0 - 0xE0, bs[1]), bs[2]) as char, 3))
    else if !IsTail(bs[3]) then None
    else Some((Shift(Shift(Shift(b0 - 0xF0, bs[1]), bs[2]), bs[3]) as char, 4))
  }

  /** `bs.decode("utf-8")`: None where Python raises UnicodeDecodeError. */
  function Decode(bs: Bytes): (r: Option<string>)
    ensures r.Some? ==> |r.value| <= |bs|
    decreases |bs|
  {
    if |bs| == 0 then Some([])
    else match DecodeFirst(bs)
      case None => None
      case Some((c, n)) =>
        match Decode(bs[n..])
        case None => None
        case Some(rest) => Some([c] + rest)
  }

  /** The UTF-8 form of one character: its code point split into 6-bit
      groups, the highest group carried by the lead byte. */
  function EncodeChar(c: char): (bs: Bytes)
    ensures 1 <= |bs| <= 4
  {
    var cp := c as int;
    var q1 := cp / 64;
    var q2 := q1 / 64;
    var q3 := q2 / 64;
    if cp < 0x80 then [cp]
    else if cp < 0x800 then [0xC0 + q1, 0x80 + cp % 64]
    else if cp < 0x10000 then [0xE0 + q2, 0x80 + q1 % 64, 0x80 + cp % 64]
    else [0xF0 + q3, 0x80 + q2 % 64, 0x80 + q1 % 64, 0x80 + cp % 64]
  }

  /** `s.encode("utf-8")`. */
  function Encode(s: string): (bs: Bytes)
    ensures |bs| >= |s|
    decreases |s|
  {
    if |s| == 0 then [] else EncodeChar(s[0]) + Encode(s[1..])
  }

  lemma ShiftDivMod(acc: int, tail: Byte)
    requires acc >= 0 && IsTail(tail)
    ensures Shift(acc, tail) / 64 == acc && Shift(acc, tail) % 64 == tail - 0x80
  {
  }

  /** Every character's encoding is a well-formed sequence that decodes back
      to it, whatever follows. */
  lemma DecodeFirstEncodeChar(c: char, rest: Bytes)
    ensures DecodeFirst(EncodeChar(c) + rest) == Some((c, |EncodeChar(c)|))
  {
    var cp := c as int;
    var bs := EncodeChar(c) + rest;
    var q1 := cp / 64;
    var q2 := q1 / 64;
    var q3 := q2 / 64;
    assert cp == Shift(q1, 0x80 + cp % 64);
    if cp < 0x80 {
    } else if cp < 0x800 {
      assert bs[0] == 0xC0 + q1 && bs[1] == 0x80 + cp % 64;
    } else if cp < 0x10000 {
      assert q1 == Shift(q2, 0x80 + q1 % 64);
      assert bs[0] == 0xE0 + q2 && bs[1] == 0x80 + q1 % 64 && bs[2] == 0x80 + cp % 64;
    } else {
      assert q1 == Shift(q2, 0x80 + q1 % 64);
      assert q2 == Shift(q3, 0x80 + q2 % 64);
      assert bs[0] == 0xF0 + q3 && bs[1] == 0x80 + q2 % 64
        && bs[2] == 0x80 + q1 % 64 && bs[3] == 0x80 + cp % 64;
    }
  }

  /** A well-formed sequence is the encoding of the character it decodes to. */
  lemma EncodeCharDecodeFirst(bs: Bytes)
    requires |bs| > 0 && DecodeFirst(bs).Some?
    ensures var (c, n) := DecodeFirst(bs).value; EncodeChar(c) == bs[..n]
  {
    var b0 := bs[0];
    var n := SeqLength(b0);
    if n == 2 {
      ShiftDivMod(b0 - 0xC0, bs[1]);
    } else if n == 3 {
      var h := Shift(b0 - 0xE0, bs[1]);
      ShiftDivMod(b0 - 0xE0, bs[1]);
      ShiftDivMod(h, bs[2]);
    } else if n == 4 {
      var h := Shift(b0 - 0xF0, bs[1]);
      var h2 := Shift(h, bs[2]);
      ShiftDivMod(b0 - 0xF0, bs[1]);
      ShiftDivMod(h, bs[2]);
      ShiftDivMod(h2, bs[3]);
    }
  }

  /** Round trip: decoding the encoding of any string gives it back. */
  lemma {:induction false} DecodeEncode(s: string)
    ensures Decode(Encode(s)) == Some(s)
    decreases |s|
  {
    if |s| > 0 {
      var e := EncodeChar(s[0]);
      DecodeFirstEncodeChar(s[0], Encode(s[1..]));
      assert (e + Encode(s[1..]))[|e|..] == Encode(s[1..]);
      DecodeEncode(s[1..]);
      assert [s[0]] + s[1..] == s;
    }
  }

  /** Round trip the other way: whatever decodes is the encoding of its
      decoded string. */
  lemma {:induction false} EncodeDecode(bs: Bytes)
    requires Decode(bs).Some?
    ensures Encode(Decode(bs).value) == bs
    decreases |bs|
  {
    if |bs| > 0 {
      var n := DecodeStep(bs);
      EncodeDecode(bs[n..]);
      var s := Decode(bs).value;
      EncodeCons(s[0], s[1..]);
      assert [s[0]] + s[1..] == s;
      assert bs[..n] + bs[n..] == bs;
    }
  }

  /** The first step of a successful decode: the first sequence encodes the
      first character, and the rest of the bytes decode to the rest. */
  lemma DecodeStep(bs: Bytes) returns (n: nat)
    requires |bs| > 0 && Decode(bs).Some?
    ensures n <= |bs| && |Decode(bs).value| > 0
    ensures EncodeChar(Decode(bs).value[0]) == bs[..n]
    ensures Decode(bs[n..]) == Some(Decode(bs).value[1..])
  {
    var r := DecodeFirst(bs).value;
    n := r.1;
    EncodeCharDecodeFirst(bs);
  }

  lemma EncodeCons(c: char, s: string)
    ensures Encode([c] + s) == EncodeChar(c) + Encode(s)
  {
    assert ([c] + s)[1..] == s;
  }

  /** Decoding succeeds with s exactly when the input is s's encoding: the
      decoder accepts the encoder's image and nothing else. */
  lemma DecodeIff(bs: Bytes, s: string)
    ensures Decode(bs) == Some(s) <==> bs == Encode(s)
  {
    if Decode(bs) == Some(s) {
      EncodeDecode(bs);
    }
    if bs == Encode(s) {
      DecodeEncode(s);
    }
  }
}

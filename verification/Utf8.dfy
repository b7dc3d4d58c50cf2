/** UTF-8 as in section 3 of RFC 3629, decoded one rune at a time from an incomplete buffer. */
module Utf8 {
  import opened Runes

  type Byte = b: int | 0 <= b < 256

  predicate Continuation(b: Byte) {
    0x80 <= b <= 0xBF
  }

  /** The length of the sequence a byte leads; 1 for a byte that leads none. */
  function SizeOf(lead: Byte): nat {
    if 0xC2 <= lead <= 0xDF then 2
    else if 0xE0 <= lead <= 0xEF then 3
    else if 0xF0 <= lead <= 0xF4 then 4
    else 1
  }

  /** The second bytes that may follow a lead byte: no overlong forms, surrogates, or values above 0x10FFFF. */
  predicate Second(lead: Byte, b: Byte) {
    (if lead == 0xE0 then 0xA0 else if lead == 0xF0 then 0x90 else 0x80) <= b
    <= (if lead == 0xED then 0x9F else if lead == 0xF4 then 0x8F else 0xBF)
  }

  /** Whether b begins with a whole rune; a malformed beginning counts as whole. */
  predicate FullRune(b: seq<Byte>) {
    |b| > 0
    && (|b| >= SizeOf(b[0])
        || (|b| > 1 && !Second(b[0], b[1]))
        || (|b| > 2 && !Continuation(b[2])))
  }

  predicate Malformed(b: seq<Byte>)
    requires |b| > 0
  {
    var n := SizeOf(b[0]);
    || (n == 1 && b[0] >= 0x80)
    || |b| < n
    || (n > 1 && !Second(b[0], b[1]))
    || (n > 2 && !Continuation(b[2]))
    || (n > 3 && !Continuation(b[3]))
  }

  /** The first rune and its length; (U+FFFD, 1) for a malformed or incomplete one. */
  function DecodeRune(b: seq<Byte>): (r: (Rune, nat))
    requires |b| > 0
    ensures 1 <= r.1 <= |b|
    ensures Scalar(r.0)
  {
    var n := SizeOf(b[0]);
    if Malformed(b) then (REPLACEMENT, 1)
    else if n == 1 then (b[0], 1)
    else if n == 2 then (Shift(b[0] as int - 0xC0, b[1]), 2)
    else if n == 3 then (Shift(Shift(b[0] as int - 0xE0, b[1]), b[2]), 3)
    else (Shift(Shift(Shift(b[0] as int - 0xF0, b[1]), b[2]), b[3]), 4)
  }

  /** The value read so far with the six bits of a continuation byte behind it. */
  function Shift(high: int, b: Byte): int {
    high * 64 + (b - 0x80)
  }

  function Tail(r: int): Byte {
    0x80 + r % 64
  }

  function EncodeRune(r: Rune): (b: seq<Byte>)
    requires Scalar(r)
    ensures 1 <= |b| <= 4
  {
    if r < 0x80 then [r]
    else if r < 0x800 then [0xC0 + r / 64, Tail(r)]
    else if r < 0x10000 then [0xE0 + r / 64 / 64, Tail(r / 64), Tail(r)]
    else [0xF0 + r / 64 / 64 / 64, Tail(r / 64 / 64), Tail(r / 64), Tail(r)]
  }

  lemma ShiftTail(r: nat)
    ensures Shift(r / 64, Tail(r)) == r
  {
  }

  lemma TailShift(high: nat, b: Byte)
    requires Continuation(b)
    ensures Shift(high, b) / 64 == high && Tail(Shift(high, b)) == b && Shift(high, b) >= 0
  {
  }

  lemma EncodingIsWhole(r: Rune)
    requires Scalar(r)
    ensures SizeOf(EncodeRune(r)[0]) == |EncodeRune(r)| && !Malformed(EncodeRune(r))
  {
    if 0x80 <= r < 0x800 {
      assert 2 <= r / 64 < 32;
    } else if 0x800 <= r < 0x10000 {
      assert 32 <= r / 64 < 1024;
      assert 0 <= r / 64 / 64 < 16;
      assert r / 64 == 64 * (r / 64 / 64) + r / 64 % 64;
    } else if 0x10000 <= r {
      assert 1024 <= r / 64 <= 0x43FF;
      assert 16 <= r / 64 / 64 <= 0x10F;
      assert 0 <= r / 64 / 64 / 64 <= 4;
      assert r / 64 / 64 == 64 * (r / 64 / 64 / 64) + r / 64 / 64 % 64;
    }
  }

  lemma DecodeOfWhole(e: seq<Byte>, rest: seq<Byte>)
    requires |e| > 0 && SizeOf(e[0]) == |e| && !Malformed(e)
    ensures DecodeRune(e + rest) == (DecodeRune(e).0, |e|)
  {
    assert forall i :: 0 <= i < |e| ==> (e + rest)[i] == e[i];
  }

  lemma DecodeOfEncode(r: Rune, rest: seq<Byte>)
    requires Scalar(r)
    ensures DecodeRune(EncodeRune(r) + rest) == (r, |EncodeRune(r)|)
  {
    EncodingIsWhole(r);
    DecodeOfWhole(EncodeRune(r), rest);
    ShiftTail(r);
    ShiftTail(r / 64);
    ShiftTail(r / 64 / 64);
  }

  lemma EncodeOfDecode(b: seq<Byte>)
    requires |b| > 0 && !Malformed(b)
    ensures EncodeRune(DecodeRune(b).0) == b[..DecodeRune(b).1]
  {
    var (r, n) := DecodeRune(b);
    if n == 2 {
      TailShift(b[0] as int - 0xC0, b[1]);
    } else if n == 3 {
      var h := Shift(b[0] as int - 0xE0, b[1]);
      TailShift(b[0] as int - 0xE0, b[1]);
      TailShift(h, b[2]);
    } else if n == 4 {
      var h := Shift(b[0] as int - 0xF0, b[1]);
      TailShift(b[0] as int - 0xF0, b[1]);
      TailShift(h, b[2]);
      TailShift(Shift(h, b[2]), b[3]);
    }
  }

  /** The bits of a rune are those of its bytes behind their marks, in as many bytes as it takes. */
  lemma EncodingInBits(r: Rune)
    requires Scalar(r)
    ensures var b := EncodeRune(r);
            && (r < 0x80 ==> b == [r])
            && (0x80 <= r < 0x800 ==> |b| == 2 && r == 64 * (b[0] as int - 192) + (b[1] as int - 128))
            && (0x800 <= r < 0x10000 ==> |b| == 3 && r == 4096 * (b[0] as int - 224) + 64 * (b[1] as int - 128) + (b[2] as int - 128))
            && (0x10000 <= r ==>
                  |b| == 4 && r == 262144 * (b[0] as int - 240) + 4096 * (b[1] as int - 128) + 64 * (b[2] as int - 128) + (b[3] as int - 128))
            && forall i :: 0 < i < |b| ==> 128 <= b[i] < 192
  {
    ShiftTail(r);
    ShiftTail(r / 64);
    ShiftTail(r / 64 / 64);
  }

  /** What begins with an encoding decodes to its rune; and what begins with none to U+FFFD, over one byte. */
  lemma DecodesExactly(b: seq<Byte>)
    requires b != []
    ensures forall r :: Scalar(r) && EncodeRune(r) <= b ==> DecodeRune(b) == (r, |EncodeRune(r)|)
    ensures (forall r :: Scalar(r) ==> !(EncodeRune(r) <= b)) ==> DecodeRune(b) == (0xFFFD, 1)
  {
    hide EncodeRune;
    forall r | Scalar(r) && EncodeRune(r) <= b
      ensures DecodeRune(b) == (r, |EncodeRune(r)|)
    {
      DecodeOfEncode(r, b[|EncodeRune(r)|..]);
      assert EncodeRune(r) + b[|EncodeRune(r)|..] == b;
    }
    if !Malformed(b) {
      EncodeOfDecode(b);
      assert EncodeRune(DecodeRune(b).0) <= b;
    }
  }

  /** A rune is still incomplete exactly while its bytes are the beginning of an encoding, but not all of one. */
  lemma IncompleteExactly(b: seq<Byte>)
    ensures !FullRune(b) <==> b == [] || exists r :: Scalar(r) && b < EncodeRune(r)
  {
    hide EncodeRune;
    forall r | Scalar(r) && b < EncodeRune(r) && b != []
      ensures !FullRune(b)
    {
      EncodingIsWhole(r);
    }
    if !FullRune(b) && b != [] {
      var e := Completed(b);
      DecodeOfWhole(e, []);
      assert e + [] == e;
      EncodeOfDecode(e);
      assert b < EncodeRune(DecodeRune(e).0);
    }
  }

  lemma Completed(b: seq<Byte>) returns (e: seq<Byte>)
    requires b != [] && !FullRune(b)
    ensures b < e && SizeOf(e[0]) == |e| && !Malformed(e)
  {
    var second := if b[0] == 0xE0 then 0xA0 else if b[0] == 0xF0 then 0x90 else 0x80;
    e := (if |b| == 1 then b + [second] else b) + seq(SizeOf(b[0]) - (if |b| == 1 then 2 else |b|), i => 0x80);
  }

  /** More bytes never change a rune that was whole, nor mend a malformed one. */
  lemma WholeRuneIsStable(b: seq<Byte>, more: seq<Byte>)
    requires FullRune(b)
    ensures FullRune(b + more) && DecodeRune(b + more) == DecodeRune(b)
  {
    assert forall i :: 0 <= i < |b| ==> (b + more)[i] == b[i];
  }

  // ---------- whole streams ----------

  function EncodeAll(text: seq<Rune>): seq<Byte>
    requires forall i :: 0 <= i < |text| ==> Scalar(text[i])
  {
    if text == [] then [] else EncodeRune(text[0]) + EncodeAll(text[1..])
  }

  function DecodeAll(b: seq<Byte>): (text: seq<Rune>)
    ensures forall i :: 0 <= i < |text| ==> Scalar(text[i])
    decreases |b|
  {
    if b == [] then [] else [DecodeRune(b).0] + DecodeAll(b[DecodeRune(b).1..])
  }

  /** Well-formed, and free of U+FFFD, which the decoder's callers take to mean "no rune yet". */
  predicate WellFormed(b: seq<Byte>)
    decreases |b|
  {
    b == [] || (DecodeRune(b).0 != REPLACEMENT && WellFormed(b[DecodeRune(b).1..]))
  }

  lemma {:induction false} TextSurvives(text: seq<Rune>)
    requires forall i :: 0 <= i < |text| ==> Scalar(text[i])
    ensures DecodeAll(EncodeAll(text)) == text
    ensures WellFormed(EncodeAll(text)) <==> REPLACEMENT !in text
  {
    hide DecodeRune, EncodeRune;
    if text != [] {
      var b := EncodeAll(text);
      DecodeOfEncode(text[0], EncodeAll(text[1..]));
      assert b[|EncodeRune(text[0])|..] == EncodeAll(text[1..]);
      TextSurvives(text[1..]);
      assert text == [text[0]] + text[1..];
    }
  }

  lemma {:induction false} BytesSurvive(b: seq<Byte>)
    requires WellFormed(b)
    ensures EncodeAll(DecodeAll(b)) == b
    decreases |b|
  {
    if b != [] {
      var (r, n) := DecodeRune(b);
      EncodeOfDecode(b);
      BytesSurvive(b[n..]);
      hide DecodeRune, EncodeRune, Malformed;
      assert b == b[..n] + b[n..];
      assert DecodeAll(b)[1..] == DecodeAll(b[n..]);
    }
  }

  /** In well-formed bytes a byte below 0x80 always stands for itself, so what follows it is well-formed. */
  lemma {:induction false} AsciiIsABoundary(b: seq<Byte>, i: nat)
    requires WellFormed(b) && i < |b| && b[i] < 0x80
    ensures WellFormed(b[i + 1..])
    decreases |b|
  {
    var n := DecodeRune(b).1;
    if i >= n {
      AsciiIsABoundary(b[n..], i - n);
      assert b[n..][i - n + 1..] == b[i + 1..];
    } else {
      assert i == 0 && n == 1;
    }
  }
}

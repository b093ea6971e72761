/**
 * UTF-8 as RFC 3629 defines it: the byte form of a `str` (`as_bytes`) and the
 * check-and-view conversion `core::str::from_utf8`, which accepts exactly the
 * well-formed byte sequences of section 4 of RFC 3629 (no overlong forms, no
 * surrogates, nothing above U+10FFFF).
 */
module Utf8 {
  /** One octet, Rust's `u8`. */
  type byte = b: int | 0 <= b < 256

  /** Number of octets in the UTF-8 form of `c`. */
  function Width(c: char): (w: nat)
    ensures 1 <= w <= 4
  {
    var v := c as int;
    if v < 0x80 then 1 else if v < 0x800 then 2 else if v < 0x1_0000 then 3 else 4
  }

  /** The width that a leading octet announces. */
  function LeadWidth(b: byte): nat {
    if b < 0x80 then 1 else if b < 0xE0 then 2 else if b < 0xF0 then 3 else 4
  }

  predicate IsContinuation(b: byte) {
    0x80 <= b <= 0xBF
  }

  /** The UTF-8 form of one scalar value (section 3 of RFC 3629). */
  function EncodeChar(c: char): (bs: seq<byte>)
    ensures |bs| == Width(c) == LeadWidth(bs[0])
    ensures c as int < 0x80 ==> bs == [c as int]
    ensures c as int >= 0x80 ==> forall i :: 0 <= i < |bs| ==> bs[i] >= 0x80
    ensures forall i :: 1 <= i < |bs| ==> IsContinuation(bs[i])
  {
    var v := c as int;
    var q1, r1 := v / 64, v % 64;
    var q2, r2 := q1 / 64, q1 % 64;
    var q3, r3 := q2 / 64, q2 % 64;
    if v < 0x80 then [v]
    else if v < 0x800 then [0xC0 + q1, 0x80 + r1]
    else if v < 0x1_0000 then [0xE0 + q2, 0x80 + r2, 0x80 + r1]
    else [0xF0 + q3, 0x80 + r3, 0x80 + r2, 0x80 + r1]
  }

  /** `s.as_bytes()`: the UTF-8 form of a string. */
  function Encode(s: string): (bs: seq<byte>)
    ensures |bs| >= |s|
    ensures |bs| == 0 <==> |s| == 0
  {
    if s == [] then [] else EncodeChar(s[0]) + Encode(s[1..])
  }

  /** ASCII text encodes to the bytes that spell it. */
  lemma {:induction false} EncodeAsciiIs(s: string, b: seq<byte>)
    requires |s| == |b|
    requires forall i :: 0 <= i < |b| ==> b[i] < 0x80 && s[i] as int == b[i]
    ensures Encode(s) == b
  {
    if s != [] {
      EncodeAsciiIs(s[1..], b[1..]);
      assert b == [b[0]] + b[1..];
    }
  }

  lemma {:induction false} EncodeAppend(s: string, t: string)
    ensures Encode(s + t) == Encode(s) + Encode(t)
  {
    if s == [] {
      assert s + t == t;
    } else {
      assert (s + t)[0] == s[0];
      assert (s + t)[1..] == s[1..] + t;
      EncodeAppend(s[1..], t);
    }
  }

  /** Only a line feed encodes to the byte 0x0A. */
  lemma {:induction false} EncodeNoLineFeed(s: string)
    requires '\n' !in s
    ensures 0x0A !in Encode(s)
  {
    if s != [] {
      assert forall c :: c in s[1..] ==> c in s;
      EncodeNoLineFeed(s[1..]);
      var e := EncodeChar(s[0]);
      assert 0x0A !in e;
    }
  }

  /**
   * Length of the well-formed UTF-8 sequence at the start of `b` (table of
   * section 4 of RFC 3629), or 0 when `b` does not start with one.
   */
  function LeadLength(b: seq<byte>): (n: nat)
    ensures n <= 4 && n <= |b|
    ensures n > 0 ==> n == LeadWidth(b[0])
    ensures forall i :: 1 <= i < n ==> IsContinuation(b[i])
  {
    if |b| == 0 then 0
    else if b[0] < 0x80 then 1
    else if 0xC2 <= b[0] <= 0xDF then
      (if |b| >= 2 && IsContinuation(b[1]) then 2 else 0)
    else if b[0] == 0xE0 then
      (if |b| >= 3 && 0xA0 <= b[1] <= 0xBF && IsContinuation(b[2]) then 3 else 0)
    else if 0xE1 <= b[0] <= 0xEC || 0xEE <= b[0] <= 0xEF then
      (if |b| >= 3 && IsContinuation(b[1]) && IsContinuation(b[2]) then 3 else 0)
    else if b[0] == 0xED then
      (if |b| >= 3 && 0x80 <= b[1] <= 0x9F && IsContinuation(b[2]) then 3 else 0)
    else if b[0] == 0xF0 then
      (if |b| >= 4 && 0x90 <= b[1] <= 0xBF && IsContinuation(b[2]) && IsContinuation(b[3]) then 4 else 0)
    else if 0xF1 <= b[0] <= 0xF3 then
      (if |b| >= 4 && IsContinuation(b[1]) && IsContinuation(b[2]) && IsContinuation(b[3]) then 4 else 0)
    else if b[0] == 0xF4 then
      (if |b| >= 4 && 0x80 <= b[1] <= 0x8F && IsContinuation(b[2]) && IsContinuation(b[3]) then 4 else 0)
    else 0
  }

  /** What `core::str::from_utf8` accepts: a run of well-formed sequences. */
  predicate Valid(b: seq<byte>)
    decreases |b|
  {
    b == [] || (LeadLength(b) > 0 && Valid(b[LeadLength(b)..]))
  }

  lemma DivMod64(q: nat, r: int)
    requires 0 <= r < 64
    ensures (q * 64 + r) / 64 == q && (q * 64 + r) % 64 == r
  {
  }

  function DecodeTwo(b0: byte, b1: byte): (c: char)
    requires 0xC2 <= b0 <= 0xDF && IsContinuation(b1)
    ensures EncodeChar(c) == [b0, b1]
  {
    var v := (b0 - 0xC0) * 64 + (b1 - 0x80);
    DivMod64(b0 - 0xC0, b1 - 0x80);
    v as char
  }

  function DecodeThree(b0: byte, b1: byte, b2: byte): (c: char)
    requires 0xE0 <= b0 <= 0xEF && IsContinuation(b1) && IsContinuation(b2)
    requires b0 == 0xE0 ==> b1 >= 0xA0
    requires b0 == 0xED ==> b1 <= 0x9F
    ensures EncodeChar(c) == [b0, b1, b2]
  {
    var q1 := (b0 - 0xE0) * 64 + (b1 - 0x80);
    var v := q1 * 64 + (b2 - 0x80);
    DivMod64(b0 - 0xE0, b1 - 0x80);
    DivMod64(q1, b2 - 0x80);
    v as char
  }

  function DecodeFour(b0: byte, b1: byte, b2: byte, b3: byte): (c: char)
    requires 0xF0 <= b0 <= 0xF4 && IsContinuation(b1) && IsContinuation(b2) && IsContinuation(b3)
    requires b0 == 0xF0 ==> b1 >= 0x90
    requires b0 == 0xF4 ==> b1 <= 0x8F
    ensures EncodeChar(c) == [b0, b1, b2, b3]
  {
    var q2 := (b0 - 0xF0) * 64 + (b1 - 0x80);
    var q1 := q2 * 64 + (b2 - 0x80);
    var v := q1 * 64 + (b3 - 0x80);
    DivMod64(b0 - 0xF0, b1 - 0x80);
    DivMod64(q2, b2 - 0x80);
    DivMod64(q1, b3 - 0x80);
    v as char
  }

  /** The scalar value of the well-formed sequence that starts `b`. */
  function DecodeChar(b: seq<byte>): (c: char)
    requires LeadLength(b) > 0
    ensures EncodeChar(c) == b[..LeadLength(b)]
  {
    var n := LeadLength(b);
    if n == 1 then b[0] as char
    else if n == 2 then DecodeTwo(b[0], b[1])
    else if n == 3 then DecodeThree(b[0], b[1], b[2])
    else DecodeFour(b[0], b[1], b[2], b[3])
  }

  /** `core::str::from_utf8(b)` on success: the string whose bytes are `b`. */
  function Decode(b: seq<byte>): (s: string)
    requires Valid(b)
    ensures Encode(s) == b
    decreases |b|
  {
    if b == [] then []
    else
      var n := LeadLength(b);
      var c := DecodeChar(b);
      var rest := Decode(b[n..]);
      EncodeSplit(c, rest, b, n);
      [c] + rest
  }

  lemma EncodeSplit(c: char, rest: string, b: seq<byte>, n: nat)
    requires n <= |b| && EncodeChar(c) == b[..n] && Encode(rest) == b[n..]
    ensures Encode([c] + rest) == b
  {
    assert ([c] + rest)[0] == c && ([c] + rest)[1..] == rest;
    assert b == b[..n] + b[n..];
  }

  /** The value a UTF-8 form of a given width carries, the inverse of `EncodeChar`. */
  function ValueOf(bs: seq<byte>): int
    requires 1 <= |bs| <= 4
  {
    if |bs| == 1 then bs[0]
    else if |bs| == 2 then (bs[0] as int - 0xC0) * 64 + (bs[1] as int - 0x80)
    else if |bs| == 3 then ((bs[0] as int - 0xE0) * 64 + (bs[1] as int - 0x80)) * 64 + (bs[2] as int - 0x80)
    else (((bs[0] as int - 0xF0) * 64 + (bs[1] as int - 0x80)) * 64 + (bs[2] as int - 0x80)) * 64 + (bs[3] as int - 0x80)
  }

  lemma EncodeCharValue(c: char)
    ensures ValueOf(EncodeChar(c)) == c as int
  {
    var v := c as int;
    var q1, r1 := v / 64, v % 64;
    var q2, r2 := q1 / 64, q1 % 64;
    var q3, r3 := q2 / 64, q2 % 64;
    assert v == q1 * 64 + r1 && q1 == q2 * 64 + r2 && q2 == q3 * 64 + r3;
  }

  lemma EncodeCharInjective(c: char, d: char)
    requires EncodeChar(c) == EncodeChar(d)
    ensures c == d
  {
    EncodeCharValue(c);
    EncodeCharValue(d);
  }

  /** Distinct strings have distinct UTF-8 forms. */
  lemma {:induction false} EncodeInjective(s: string, t: string)
    requires Encode(s) == Encode(t)
    ensures s == t
  {
    if s != [] && t != [] {
      var es, et := EncodeChar(s[0]), EncodeChar(t[0]);
      assert Encode(s) == es + Encode(s[1..]);
      assert Encode(t) == et + Encode(t[1..]);
      assert es[0] == Encode(s)[0] == et[0];
      assert |es| == LeadWidth(es[0]) == |et|;
      assert es == Encode(s)[..|es|] == et;
      EncodeCharInjective(s[0], t[0]);
      assert Encode(s[1..]) == Encode(s)[|es|..] == Encode(t[1..]);
      EncodeInjective(s[1..], t[1..]);
      assert s == [s[0]] + s[1..] && t == [t[0]] + t[1..];
    }
  }

  lemma EncodeCharWellFormed(c: char, rest: seq<byte>)
    ensures LeadLength(EncodeChar(c) + rest) == Width(c)
  {
    var v := c as int;
    var q1, r1 := v / 64, v % 64;
    var q2, r2 := q1 / 64, q1 % 64;
    var q3, r3 := q2 / 64, q2 % 64;
    assert v == q1 * 64 + r1 && q1 == q2 * 64 + r2 && q2 == q3 * 64 + r3;
    var b := EncodeChar(c) + rest;
    assert b[..Width(c)] == EncodeChar(c);
  }

  /** Every string's UTF-8 form passes `from_utf8`, and decoding it gives the string back. */
  lemma {:induction false} EncodeValid(s: string)
    ensures Valid(Encode(s)) && Decode(Encode(s)) == s
  {
    if s != [] {
      var e := EncodeChar(s[0]);
      EncodeCharWellFormed(s[0], Encode(s[1..]));
      assert Encode(s)[|e|..] == Encode(s[1..]);
      EncodeValid(s[1..]);
      assert Valid(Encode(s));
      EncodeInjective(Decode(Encode(s)), s);
    }
  }
}

/** UTF-8, as Python's `str.encode()` and `bytes.decode(errors="ignore")` use it.
    Text is a Dafny `string` (a sequence of Unicode scalar values); bytes are
    numbers below 256. */
module Utf8 {
  import opened Wrappers

  type byte = x: int | 0 <= x < 0x100

  predicate IsContinuation(b: byte) { 0x80 <= b <= 0xBF }

  predicate IsAscii(s: string) {
    forall i :: 0 <= i < |s| ==> s[i] as int < 0x80
  }

  predicate IsAsciiBytes(b: seq<byte>) {
    forall i :: 0 <= i < |b| ==> b[i] < 0x80
  }

  predicate IsScalar(x: int) {
    (0 <= x < 0xD800) || (0xE000 <= x < 0x11_0000)
  }

  /** The UTF-8 encoding of one character. */
  function EncodeChar(c: char): (b: seq<byte>)
    ensures 1 <= |b| <= 4
  {
    var x := c as int;
    if x < 0x80 then [x]
    else if x < 0x800 then [0xC0 + x / 64, 0x80 + x % 64]
    else if x < 0x1_0000 then [0xE0 + x / 4096, 0x80 + (x / 64) % 64, 0x80 + x % 64]
    else [0xF0 + x / 262144, 0x80 + (x / 4096) % 64, 0x80 + (x / 64) % 64, 0x80 + x % 64]
  }

  /** `s.encode()` */
  function Encode(s: string): (b: seq<byte>)
    ensures |b| >= |s|
  {
    if |s| == 0 then [] else EncodeChar(s[0]) + Encode(s[1..])
  }

  /** One well-formed UTF-8 sequence at the front of `b` (Table 3-7 of the
      Unicode Standard, which Python's decoder follows), with its length. */
  function DecodeOne(b: seq<byte>): (r: Option<(char, nat)>)
    ensures r.Some? ==> 1 <= r.value.1 <= |b|
  {
    if |b| == 0 then None
    else
      var b0: int := b[0];
      if b0 < 0x80 then Some((b0 as char, 1))
      else if 0xC2 <= b0 <= 0xDF then
        if |b| >= 2 && IsContinuation(b[1]) then
          var b1: int := b[1];
          Some((((b0 - 0xC0) * 64 + (b1 - 0x80)) as char, 2))
        else None
      else if 0xE0 <= b0 <= 0xEF then
        var lo := if b0 == 0xE0 then 0xA0 else 0x80;
        var hi := if b0 == 0xED then 0x9F else 0xBF;
        if |b| >= 3 && lo <= b[1] <= hi && IsContinuation(b[2]) then
          var b1: int := b[1];
          var b2: int := b[2];
          var x := (b0 - 0xE0) * 4096 + (b1 - 0x80) * 64 + (b2 - 0x80);
          Some((x as char, 3))
        else None
      else if 0xF0 <= b0 <= 0xF4 then
        var lo := if b0 == 0xF0 then 0x90 else 0x80;
        var hi := if b0 == 0xF4 then 0x8F else 0xBF;
        if |b| >= 4 && lo <= b[1] <= hi && IsContinuation(b[2]) && IsContinuation(b[3]) then
          var b1: int := b[1];
          var b2: int := b[2];
          var b3: int := b[3];
          var x := (b0 - 0xF0) * 262144 + (b1 - 0x80) * 4096 + (b2 - 0x80) * 64 + (b3 - 0x80);
          Some((x as char, 4))
        else None
      else None
  }

  /** `b.decode(errors="ignore")`: well-formed sequences become characters, any
      byte that does not start one is dropped. */
  function DecodeIgnore(b: seq<byte>): string
    decreases |b|
  {
    if |b| == 0 then ""
    else match DecodeOne(b)
      case Some((c, n)) => [c] + DecodeIgnore(b[n..])
      case None => DecodeIgnore(b[1..])
  }

  lemma {:induction false} EncodeAppend(a: string, b: string)
    ensures Encode(a + b) == Encode(a) + Encode(b)
    decreases |a|
  {
    if |a| == 0 {
      assert a + b == b;
    } else {
      assert (a + b)[1..] == a[1..] + b;
      EncodeAppend(a[1..], b);
    }
  }

  lemma DecodeTwo(c: char, rest: seq<byte>)
    requires 0x80 <= c as int < 0x800
    ensures DecodeOne(EncodeChar(c) + rest) == Some((c, 2))
  {
    var x := c as int;
    var q := x / 64;
    var r := x % 64;
    assert x == q * 64 + r;
    assert 2 <= q < 32;
    var b := EncodeChar(c) + rest;
    assert b[0] == 0xC0 + q && b[1] == 0x80 + r;
  }

  lemma DecodeThree(c: char, rest: seq<byte>)
    requires 0x800 <= c as int < 0x1_0000
    ensures DecodeOne(EncodeChar(c) + rest) == Some((c, 3))
  {
    var x := c as int;
    var q := x / 4096;
    var t := x % 4096;
    var m := t / 64;
    var r := t % 64;
    assert x == q * 4096 + t;
    assert t == m * 64 + r;
    assert x / 64 == q * 64 + m;
    assert (x / 64) % 64 == m;
    assert x % 64 == r;
    var b := EncodeChar(c) + rest;
    assert b[0] == 0xE0 + q && b[1] == 0x80 + m && b[2] == 0x80 + r;
    assert q == 0 ==> m >= 32;
    assert q == 13 ==> m < 32;
  }

  lemma DecodeFour(c: char, rest: seq<byte>)
    requires 0x1_0000 <= c as int
    ensures DecodeOne(EncodeChar(c) + rest) == Some((c, 4))
  {
    var x := c as int;
    var q := x / 262144;
    var t := x % 262144;
    var m1 := t / 4096;
    var u := t % 4096;
    var m2 := u / 64;
    var r := u % 64;
    assert x == q * 262144 + t;
    assert t == m1 * 4096 + u;
    assert u == m2 * 64 + r;
    assert x / 4096 == q * 64 + m1;
    assert (x / 4096) % 64 == m1;
    assert x / 64 == q * 4096 + m1 * 64 + m2;
    assert (x / 64) % 64 == m2;
    assert x % 64 == r;
    var b := EncodeChar(c) + rest;
    assert b[0] == 0xF0 + q && b[1] == 0x80 + m1 && b[2] == 0x80 + m2 && b[3] == 0x80 + r;
    assert q == 0 ==> m1 >= 16;
    assert q == 4 ==> m1 < 16;
  }

  lemma DecodeOneEncodeChar(c: char, rest: seq<byte>)
    ensures DecodeOne(EncodeChar(c) + rest) == Some((c, |EncodeChar(c)|))
  {
    var x := c as int;
    if x < 0x80 {
    } else if x < 0x800 {
      DecodeTwo(c, rest);
    } else if x < 0x1_0000 {
      DecodeThree(c, rest);
    } else {
      DecodeFour(c, rest);
    }
  }

  /** Decoding what was encoded gives the text back: nothing is dropped from
      well-formed input. */
  lemma {:induction false} DecodeEncode(s: string)
    ensures DecodeIgnore(Encode(s)) == s
    decreases |s|
  {
    if |s| > 0 {
      var e := EncodeChar(s[0]);
      var rest := Encode(s[1..]);
      DecodeOneEncodeChar(s[0], rest);
      assert (e + rest)[|e|..] == rest;
      DecodeEncode(s[1..]);
      assert s == [s[0]] + s[1..];
    }
  }

  /** On ASCII text, encoding is the identity on character codes. */
  lemma {:induction false} EncodeAscii(s: string)
    requires IsAscii(s)
    ensures |Encode(s)| == |s|
    ensures forall i :: 0 <= i < |s| ==> Encode(s)[i] == s[i] as int
    decreases |s|
  {
    if |s| > 0 {
      EncodeAscii(s[1..]);
    }
  }

  /** On ASCII bytes, lossy decoding drops nothing and maps each byte to its character. */
  lemma {:induction false} DecodeAscii(b: seq<byte>)
    requires IsAsciiBytes(b)
    ensures |DecodeIgnore(b)| == |b|
    ensures forall i :: 0 <= i < |b| ==> DecodeIgnore(b)[i] as int == b[i]
    decreases |b|
  {
    if |b| > 0 {
      DecodeAscii(b[1..]);
    }
  }

  /** A continuation byte never starts a sequence, so ignore-mode decoding
      drops it on its own. Dropping ill-formed input one byte at a time
      therefore loses exactly the lead byte and the continuation bytes of a
      broken sequence, as Python drops each maximal ill-formed subpart. */
  lemma ContinuationDropped(b: seq<byte>)
    requires |b| > 0 && IsContinuation(b[0])
    ensures DecodeOne(b).None?
    ensures DecodeIgnore(b) == DecodeIgnore(b[1..])
  {
  }

  /** Ill-formed bytes are dropped and well-formed ones kept: a stray `0xFF`,
      a three-byte sequence cut short before an ASCII byte, and `é`. */
  lemma IgnoreExamples()
    ensures DecodeIgnore([0xFF, 0x41]) == "A"
    ensures DecodeIgnore([0xE2, 0x82, 0x41]) == "A"
    ensures DecodeIgnore([0xC3, 0xA9]) == "\U{e9}"
  {
    var x: seq<byte> := [0xE2, 0x82, 0x41];
    assert DecodeOne(x).None?;
    assert x[1..] == [0x82, 0x41];
    ContinuationDropped(x[1..]);
    assert x[1..][1..] == [0x41];
    var y: seq<byte> := [0xFF, 0x41];
    assert y[1..] == [0x41];
    var z: seq<byte> := [0xC3, 0xA9];
    assert DecodeOne(z) == Some(('\U{e9}', 2));
    assert z[2..] == [];
  }
}

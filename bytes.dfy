/**
 * Byte-level reading shared by the two VPK decoders: little-endian
 * integers, the NUL-terminated run that `many_till(le_u8, tag(&[0]))`
 * collects, and `String::from_utf8`.
 */
module Bytes {
  import opened Wrappers

  type Byte = b: int | 0 <= b < 256

  /** `le_u16` at `i`. */
  function LeU16(s: seq<Byte>, i: nat): (r: nat)
    requires i + 2 <= |s|
    ensures r < 0x1_0000
  {
    s[i] as int + 0x100 * (s[i + 1] as int)
  }

  /** `le_u32` at `i`. */
  function LeU32(s: seq<Byte>, i: nat): (r: nat)
    requires i + 4 <= |s|
    ensures r < 0x1_0000_0000
  {
    s[i] as int + 0x100 * (s[i + 1] as int) + 0x1_0000 * (s[i + 2] as int) + 0x100_0000 * (s[i + 3] as int)
  }

  /** The little-endian bytes of a `u32`. */
  function U32Bytes(n: nat): (r: seq<Byte>)
    requires n < 0x1_0000_0000
    ensures |r| == 4
  {
    [n % 0x100, (n / 0x100) % 0x100, (n / 0x1_0000) % 0x100, n / 0x100_0000]
  }

  /** `le_u32` reads back what `U32Bytes` writes. */
  lemma LeU32OfBytes(n: nat, pre: seq<Byte>, post: seq<Byte>)
    requires n < 0x1_0000_0000
    ensures LeU32(pre + U32Bytes(n) + post, |pre|) == n
  {
    var s := pre + U32Bytes(n) + post;
    var r := U32Bytes(n);
    var i := |pre|;
    assert s[i] == r[0] && s[i + 1] == r[1] && s[i + 2] == r[2] && s[i + 3] == r[3];
    U32BytesValue(n);
  }

  /** The four bytes of `U32Bytes` are the base-256 digits of `n`, lowest first. */
  lemma U32BytesValue(n: nat)
    requires n < 0x1_0000_0000
    ensures var r := U32Bytes(n);
            r[0] as int + 0x100 * (r[1] as int) + 0x1_0000 * (r[2] as int) + 0x100_0000 * (r[3] as int) == n
  {
    var q1 := n / 0x100;
    var q2 := n / 0x1_0000;
    var q3 := n / 0x100_0000;
    assert q1 / 0x100 == q2;
    assert q2 / 0x100 == q3;
    assert n == n % 0x100 + 0x100 * q1;
    assert q1 == q1 % 0x100 + 0x100 * q2;
    assert q2 == q2 % 0x100 + 0x100 * q3;
  }

  /**
   * `many_till(le_u8, tag(&[0]))` from `i`: the position of the first NUL
   * at or after `i`, or `None` when the input ends first.
   */
  function NulAt(s: seq<Byte>, i: nat): (r: Option<nat>)
    requires i <= |s|
    ensures r.Some? ==> i <= r.value < |s| && s[r.value] == 0 && forall k :: i <= k < r.value ==> s[k] != 0
    ensures r.None? <==> forall k :: i <= k < |s| ==> s[k] != 0
    decreases |s| - i
  {
    if i == |s| then None else if s[i] == 0 then Some(i) else NulAt(s, i + 1)
  }

  /** A continuation byte within `lo..=hi`. */
  predicate Cont(b: Byte, lo: int, hi: int) {
    lo <= b <= hi
  }

  /** The length of the well-formed UTF-8 sequence at the front of `b`, or 0 (Table 3-7 of the Unicode Standard). */
  function SequenceLength(b: seq<Byte>): (n: nat)
    ensures n <= 4 && n <= |b|
  {
    if |b| == 0 then 0
    else if b[0] < 0x80 then 1
    else if 0xC2 <= b[0] <= 0xDF then (if |b| >= 2 && Cont(b[1], 0x80, 0xBF) then 2 else 0)
    else if 0xE0 <= b[0] <= 0xEF then
      var lo := if b[0] == 0xE0 then 0xA0 else 0x80;
      var hi := if b[0] == 0xED then 0x9F else 0xBF;
      if |b| >= 3 && Cont(b[1], lo, hi) && Cont(b[2], 0x80, 0xBF) then 3 else 0
    else if 0xF0 <= b[0] <= 0xF4 then
      var lo := if b[0] == 0xF0 then 0x90 else 0x80;
      var hi := if b[0] == 0xF4 then 0x8F else 0xBF;
      if |b| >= 4 && Cont(b[1], lo, hi) && Cont(b[2], 0x80, 0xBF) && Cont(b[3], 0x80, 0xBF) then 4 else 0
    else 0
  }

  /** The scalar value the well-formed sequence at the front of `b` encodes. */
  function ScalarOf(b: seq<Byte>): (c: char)
    requires SequenceLength(b) > 0
  {
    var n := SequenceLength(b);
    var b0: int := b[0];
    if n == 1 then b0 as char
    else
      var b1: int := b[1];
      if n == 2 then ((b0 - 0xC0) * 0x40 + (b1 - 0x80)) as char
      else
        var b2: int := b[2];
        if n == 3 then
          var v := (b0 - 0xE0) * 0x1000 + (b1 - 0x80) * 0x40 + (b2 - 0x80);
          assert b0 == 0xED ==> v < 0xD800;
          assert b0 != 0xED ==> v < 0xD800 || 0xE000 <= v;
          v as char
        else
          var b3: int := b[3];
          ((b0 - 0xF0) * 0x4_0000 + (b1 - 0x80) * 0x1000 + (b2 - 0x80) * 0x40 + (b3 - 0x80)) as char
  }

  /** `String::from_utf8`: the decoded text, or `None` on ill-formed input. */
  function Utf8Decode(b: seq<Byte>): (r: Option<string>)
    ensures r.Some? ==> |r.value| <= |b| && (r.value == [] <==> b == [])
    decreases |b|
  {
    if b == [] then Some([])
    else
      var n := SequenceLength(b);
      if n == 0 then None
      else match Utf8Decode(b[n..])
        case None => None
        case Some(rest) => Some([ScalarOf(b)] + rest)
  }

  /** The UTF-8 encoding of one character. */
  function EncodeChar(c: char): (r: seq<Byte>)
    ensures 1 <= |r| <= 4
  {
    var v := c as int;
    if v < 0x80 then [v]
    else if v < 0x800 then [0xC0 + v / 0x40, 0x80 + v % 0x40]
    else if v < 0x1_0000 then [0xE0 + v / 0x1000, 0x80 + (v / 0x40) % 0x40, 0x80 + v % 0x40]
    else [0xF0 + v / 0x4_0000, 0x80 + (v / 0x1000) % 0x40, 0x80 + (v / 0x40) % 0x40, 0x80 + v % 0x40]
  }

  /** The UTF-8 encoding of a text (`String::into_bytes`). */
  function Utf8Encode(s: string): seq<Byte>
    decreases |s|
  {
    if s == [] then [] else EncodeChar(s[0]) + Utf8Encode(s[1..])
  }

  /** The encoding of a character is one well-formed sequence that decodes back to it, whatever follows. */
  lemma DecodeEncodeChar(c: char, rest: seq<Byte>)
    ensures SequenceLength(EncodeChar(c) + rest) == |EncodeChar(c)|
    ensures ScalarOf(EncodeChar(c) + rest) == c
  {
    var v := c as int;
    if v < 0x80 {
    } else if v < 0x800 {
      DecodeTwo(v, rest);
    } else if v < 0x1_0000 {
      DecodeThree(v, rest);
    } else {
      DecodeFour(v, rest);
    }
  }

  lemma DecodeTwo(v: int, rest: seq<Byte>)
    requires 0x80 <= v < 0x800
    ensures var b := [0xC0 + v / 0x40, 0x80 + v % 0x40] + rest;
            SequenceLength(b) == 2 && ScalarOf(b) as int == v
  {
    var q, r := v / 0x40, v % 0x40;
    assert v == q * 0x40 + r;
  }

  lemma DecodeThree(v: int, rest: seq<Byte>)
    requires 0x800 <= v < 0x1_0000 && (v < 0xD800 || 0xE000 <= v)
    ensures var b := [0xE0 + v / 0x1000, 0x80 + (v / 0x40) % 0x40, 0x80 + v % 0x40] + rest;
            SequenceLength(b) == 3 && ScalarOf(b) as int == v
  {
    var q1, r1 := v / 0x40, v % 0x40;
    var q2, r2 := q1 / 0x40, q1 % 0x40;
    assert v == q1 * 0x40 + r1;
    assert q1 == q2 * 0x40 + r2;
    assert v / 0x1000 == q2;
  }

  lemma DecodeFour(v: int, rest: seq<Byte>)
    requires 0x1_0000 <= v <= 0x10_FFFF
    ensures var b := [0xF0 + v / 0x4_0000, 0x80 + (v / 0x1000) % 0x40, 0x80 + (v / 0x40) % 0x40, 0x80 + v % 0x40] + rest;
            SequenceLength(b) == 4 && ScalarOf(b) as int == v
  {
    var q1, r1 := v / 0x40, v % 0x40;
    var q2, r2 := q1 / 0x40, q1 % 0x40;
    var q3, r3 := q2 / 0x40, q2 % 0x40;
    assert v == q1 * 0x40 + r1;
    assert q1 == q2 * 0x40 + r2;
    assert q2 == q3 * 0x40 + r3;
    assert v / 0x1000 == q2;
    assert v / 0x4_0000 == q3;
  }

  /** Decoding undoes encoding for every text. */
  lemma {:induction false} Utf8RoundTrip(s: string)
    ensures Utf8Decode(Utf8Encode(s)) == Some(s)
    decreases |s|
  {
    if s != [] {
      var e := EncodeChar(s[0]);
      var rest := Utf8Encode(s[1..]);
      DecodeEncodeChar(s[0], rest);
      assert (e + rest)[|e|..] == rest;
      Utf8RoundTrip(s[1..]);
      assert [s[0]] + s[1..] == s;
    }
  }

  predicate IsAscii(b: seq<Byte>) {
    forall k :: 0 <= k < |b| ==> b[k] < 0x80
  }

  /** ASCII bytes decode one character each, to the characters with the same codes. */
  lemma {:induction false} Utf8DecodeAscii(b: seq<Byte>)
    requires IsAscii(b)
    ensures Utf8Decode(b).Some?
    ensures |Utf8Decode(b).value| == |b|
    ensures forall k :: 0 <= k < |b| ==> Utf8Decode(b).value[k] as int == b[k]
    decreases |b|
  {
    if b != [] {
      assert SequenceLength(b) == 1;
      Utf8DecodeAscii(b[1..]);
      var r := Utf8Decode(b).value;
      assert r == [b[0] as char] + Utf8Decode(b[1..]).value;
      forall k | 0 <= k < |b|
        ensures r[k] as int == b[k]
      {
        if k > 0 {
          assert r[k] == Utf8Decode(b[1..]).value[k - 1];
        }
      }
    }
  }
}

/** Bytes, the byte order of strings, and UTF-8 text. */
module Bytes {

  type Byte = b: nat | b < 256

  // ----- the order on strings -----

  /** Byte by byte, a proper prefix first. */
  predicate Less(a: seq<Byte>, b: seq<Byte>) {
    b != [] && (a == [] || a[0] < b[0] || (a[0] == b[0] && Less(a[1..], b[1..])))
  }

  /** Decided by the first place where they differ: there the smaller byte, or the end. */
  lemma {:induction false} LessAtFirstDifference(a: seq<Byte>, b: seq<Byte>)
    ensures Less(a, b) <==>
      exists k: nat :: k <= |a| && k < |b| && a[..k] == b[..k] && (k == |a| || a[k] < b[k])
  {
    if a != [] && b != [] && a[0] == b[0] {
      LessAtFirstDifference(a[1..], b[1..]);
      var s, t := a[1..], b[1..];
      if k: nat :| k <= |s| && k < |t| && s[..k] == t[..k] && (k == |s| || s[k] < t[k]) {
        assert a[..k + 1] == [a[0]] + a[1..][..k] && b[..k + 1] == [b[0]] + b[1..][..k];
      }
      if k: nat :| k <= |a| && k < |b| && a[..k] == b[..k] && (k == |a| || a[k] < b[k]) {
        assert k > 0;
        assert a[1..][..k - 1] == a[..k][1..] == b[..k][1..] == b[1..][..k - 1];
        assert k - 1 == |a[1..]| || a[1..][k - 1] < b[1..][k - 1];
      }
    } else {
      assert a[..0] == b[..0];
      assert forall k: nat :: 0 < k <= |a| && k <= |b| && a[..k] == b[..k] ==> a[..k][0] == a[0] == b[..k][0] == b[0];
    }
  }

  lemma {:induction false} LessIsTotal(a: seq<Byte>, b: seq<Byte>)
    requires a != b
    ensures Less(a, b) <==> !Less(b, a)
  {
    if a != [] && b != [] && a[0] == b[0] {
      assert a == [a[0]] + a[1..] && b == [b[0]] + b[1..];
      LessIsTotal(a[1..], b[1..]);
    }
  }

  lemma {:induction false} NotBelowItself(a: seq<Byte>)
    ensures !Less(a, a)
  {
    if a != [] {
      NotBelowItself(a[1..]);
    }
  }

  lemma {:induction false} LessIsTransitive(a: seq<Byte>, b: seq<Byte>, c: seq<Byte>)
    requires Less(a, b) && Less(b, c)
    ensures Less(a, c)
  {
    if a != [] && a[0] == b[0] && b[0] == c[0] {
      LessIsTransitive(a[1..], b[1..], c[1..]);
    }
  }

  // ----- UTF-8 -----

  /** A Unicode scalar value: a Rust `char`. */
  type Scalar = n: nat | n < 0xD800 || 0xE000 <= n < 0x11_0000

  function EncodeChar(n: Scalar): (bs: seq<Byte>)
    ensures 1 <= |bs| <= 4
  {
    if n < 0x80 then [n]
    else if n < 0x800 then [0xC0 + n / 64, 0x80 + n % 64]
    else if n < 0x1_0000 then [0xE0 + n / 64 / 64, 0x80 + n / 64 % 64, 0x80 + n % 64]
    else [0xF0 + n / 64 / 64 / 64, 0x80 + n / 64 / 64 % 64, 0x80 + n / 64 % 64, 0x80 + n % 64]
  }

  function Encode(text: seq<Scalar>): seq<Byte> {
    if text == [] then [] else EncodeChar(text[0]) + Encode(text[1..])
  }

  predicate IsContinuation(b: Byte) { 0x80 <= b < 0xC0 }

  /** The first byte of a character is no continuation byte, all others are. */
  lemma OnlyTheFirstByteLeads(n: Scalar)
    ensures !IsContinuation(EncodeChar(n)[0])
    ensures forall i :: 1 <= i < |EncodeChar(n)| ==> IsContinuation(EncodeChar(n)[i])
  {
  }

  /** The first byte tells the length. */
  lemma FirstByteTellsLength(a: Scalar, b: Scalar)
    requires EncodeChar(a)[0] == EncodeChar(b)[0]
    ensures |EncodeChar(a)| == |EncodeChar(b)|
  {
  }

  lemma SameDigits(a: nat, b: nat)
    requires a / 64 == b / 64 && a % 64 == b % 64
    ensures a == b
  {
  }

  lemma EncodeCharIsInjective(a: Scalar, b: Scalar)
    requires EncodeChar(a) == EncodeChar(b)
    ensures a == b
  {
    var n := |EncodeChar(a)|;
    assert n == |EncodeChar(b)|;
    if n > 1 {
      assert EncodeChar(a)[n - 1] == EncodeChar(b)[n - 1] && EncodeChar(a)[0] == EncodeChar(b)[0];
      if n > 3 {
        assert EncodeChar(a)[1] == EncodeChar(b)[1];
        SameDigits(a / 64 / 64, b / 64 / 64);
      }
      if n > 2 {
        assert EncodeChar(a)[n - 2] == EncodeChar(b)[n - 2];
        SameDigits(a / 64, b / 64);
      }
      SameDigits(a, b);
    }
  }

  /** No character's bytes begin another's: two texts that agree on enough bytes begin alike. */
  lemma EncodingIsPrefixFree(a: Scalar, b: Scalar, s: seq<Byte>)
    requires EncodeChar(a) <= EncodeChar(b) + s
    ensures a == b
  {
    assert EncodeChar(a)[0] == (EncodeChar(b) + s)[0];
    FirstByteTellsLength(a, b);
    assert EncodeChar(a) == (EncodeChar(b) + s)[..|EncodeChar(a)|] == EncodeChar(b);
    EncodeCharIsInjective(a, b);
  }

  predicate IsAscii(text: seq<Scalar>) { forall i :: 0 <= i < |text| ==> text[i] < 0x80 }

  /** ASCII text, and no other, has as many bytes as characters. */
  lemma {:induction false} AsciiIsByteForByte(text: seq<Scalar>)
    ensures |Encode(text)| >= |text|
    ensures IsAscii(text) <==> |Encode(text)| == |text|
  {
    hide EncodeChar;
    if text != [] {
      AsciiIsByteForByte(text[1..]);
      OneByteIffAscii(text[0]);
      assert text == [text[0]] + text[1..];
    }
  }

  lemma OneByteIffAscii(n: Scalar)
    ensures |EncodeChar(n)| == 1 <==> n < 0x80
    ensures n < 0x80 ==> EncodeChar(n) == [n]
    ensures n >= 0x80 ==> forall i :: 0 <= i < |EncodeChar(n)| ==> EncodeChar(n)[i] >= 0x80
  {
  }
}

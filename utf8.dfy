/** Well-formed UTF-8, the check `String::from_utf8` applies to the domain
    name bytes of a request before they are used as text (the table of
    well-formed byte sequences in section 3.9 of the Unicode Standard:
    no overlong forms, no surrogates, nothing above U+10FFFF). */
module Utf8 {
  import opened Bytes

  predicate IsContinuation(b: byte) {
    0x80 <= b <= 0xBF
  }

  /** A three-byte sequence whose second byte lies in `lo`..`hi`. */
  function Three(s: seq<byte>, lo: byte, hi: byte): nat {
    if |s| >= 3 && lo <= s[1] <= hi && IsContinuation(s[2]) then 3 else 0
  }

  /** A four-byte sequence whose second byte lies in `lo`..`hi`. */
  function Four(s: seq<byte>, lo: byte, hi: byte): nat {
    if |s| >= 4 && lo <= s[1] <= hi && IsContinuation(s[2]) && IsContinuation(s[3]) then 4 else 0
  }

  /** The length of the well-formed sequence that encodes the first scalar
      value of `s`, or 0 when `s` does not start with one. */
  function FirstScalarLength(s: seq<byte>): (k: nat)
    ensures k <= 4 && k <= |s|
    ensures k == 1 <==> s != [] && s[0] < 0x80
  {
    if s == [] then 0
    else
      var b := s[0];
      if b < 0x80 then 1
      else if 0xC2 <= b <= 0xDF then (if |s| >= 2 && IsContinuation(s[1]) then 2 else 0)
      else if b == 0xE0 then Three(s, 0xA0, 0xBF)
      else if 0xE1 <= b <= 0xEC || 0xEE <= b <= 0xEF then Three(s, 0x80, 0xBF)
      else if b == 0xED then Three(s, 0x80, 0x9F)
      else if b == 0xF0 then Four(s, 0x90, 0xBF)
      else if 0xF1 <= b <= 0xF3 then Four(s, 0x80, 0xBF)
      else if b == 0xF4 then Four(s, 0x80, 0x8F)
      else 0
  }

  /** A byte that never occurs in well-formed UTF-8. */
  predicate NeverOccurs(b: byte) {
    b == 0xC0 || b == 0xC1 || b >= 0xF5
  }

  /** `s` is a concatenation of well-formed scalar-value sequences. It
      never starts with a continuation byte or with a byte that never
      occurs in UTF-8. */
  predicate ValidUtf8(s: seq<byte>): (b: bool)
    ensures b && s != [] ==> !IsContinuation(s[0]) && !NeverOccurs(s[0])
    decreases |s|
  {
    s == [] || (FirstScalarLength(s) > 0 && ValidUtf8(s[FirstScalarLength(s)..]))
  }

  /** The bytes 0xC0, 0xC1 and 0xF5 to 0xFF occur nowhere in well-formed
      UTF-8: not as a lead byte, and not inside a sequence either. */
  lemma {:induction false} ValidUtf8Bytes(s: seq<byte>)
    requires ValidUtf8(s)
    ensures forall i :: 0 <= i < |s| ==> !NeverOccurs(s[i])
    decreases |s|
  {
    if s != [] {
      var k := FirstScalarLength(s);
      ValidUtf8Bytes(s[k..]);
      forall i | 0 <= i < |s|
        ensures !NeverOccurs(s[i])
      {
        if i >= k {
          assert s[i] == s[k..][i - k];
        }
      }
    }
  }

  /** What the first scalar value's length is decided by lies inside that
      sequence, so bytes appended after `s` do not change it. */
  lemma FirstScalarLengthAppend(s: seq<byte>, t: seq<byte>)
    requires FirstScalarLength(s) > 0
    ensures FirstScalarLength(s + t) == FirstScalarLength(s)
  {
    assert (s + t)[..|s|] == s;
  }

  /** Every ASCII string is well-formed UTF-8: host names pass the check. */
  lemma {:induction false} AsciiIsValid(s: seq<byte>)
    requires forall i :: 0 <= i < |s| ==> s[i] < 0x80
    ensures ValidUtf8(s)
    decreases |s|
  {
    if s != [] {
      AsciiIsValid(s[1..]);
    }
  }

  /** Well-formed UTF-8 is closed under concatenation, which is why pushing
      text onto a `String` keeps it well-formed. */
  lemma {:induction false} ValidConcat(a: seq<byte>, b: seq<byte>)
    requires ValidUtf8(a) && ValidUtf8(b)
    ensures ValidUtf8(a + b)
    decreases |a|
  {
    if a == [] {
      assert a + b == b;
    } else {
      var k := FirstScalarLength(a);
      ValidConcat(a[k..], b);
      ConcatStep(a, b, k);
    }
  }

  /** The first scalar of `a`, followed by well-formed text made of the
      rest of `a` and then `b`, makes `a + b` well-formed. */
  lemma ConcatStep(a: seq<byte>, b: seq<byte>, k: nat)
    requires 0 < k && FirstScalarLength(a) == k && ValidUtf8(a[k..] + b)
    ensures ValidUtf8(a + b)
  {
    FirstScalarLengthAppend(a, b);
    assert (a + b)[k..] == a[k..] + b;
    ValidPrefixed(a + b, k);
  }

  /** One well-formed scalar followed by well-formed text is well-formed. */
  lemma ValidPrefixed(s: seq<byte>, k: nat)
    requires 0 < k && FirstScalarLength(s) == k && ValidUtf8(s[k..])
    ensures ValidUtf8(s)
  {
  }
}

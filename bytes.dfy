/** Octets, 16-bit words in network byte order and the decimal text of an
    unsigned integer: the scalar encodings the SOCKS5 wire format and the
    resolver string are built from. */
module Bytes {

  /** A Rust `u8`. */
  newtype byte = x: int | 0 <= x < 256

  /** A Rust `u16`. */
  newtype u16 = x: int | 0 <= x < 0x1_0000

  datatype Option<+T> = None | Some(value: T)

  /** Rust's `Result`: the value of an operation or the error it returned. */
  datatype Result<+T, +E> = Ok(value: T) | Err(error: E)

  /** The 16-bit big-endian word whose high octet is `hi` and low octet is
      `lo`, as `bytes::Buf::get_u16` reads it. */
  function U16Be(hi: byte, lo: byte): (w: u16)
    ensures w as int / 256 == hi as int
    ensures w as int % 256 == lo as int
  {
    (hi as int * 256 + lo as int) as u16
  }

  /** The two octets of `w` in network byte order. */
  function U16BeBytes(w: u16): (b: seq<byte>)
    ensures |b| == 2
    ensures U16Be(b[0], b[1]) == w
  {
    [(w as int / 256) as byte, (w as int % 256) as byte]
  }

  /** Two octet pairs that decode to the same word are the same pair:
      `U16Be` is injective, so `U16BeBytes` is its only inverse. */
  lemma U16BeInjective(hi: byte, lo: byte, hi': byte, lo': byte)
    requires U16Be(hi, lo) == U16Be(hi', lo')
    ensures hi == hi' && lo == lo'
  {
    var w := U16Be(hi, lo) as int;
    assert hi as int == w / 256 == hi' as int;
    assert lo as int == w % 256 == lo' as int;
  }

  /** Appending is associative; stated once so that proofs about long
      concatenations can regroup them cheaply. */
  lemma AppendAssoc(a: seq<byte>, b: seq<byte>, c: seq<byte>)
    ensures a + b + c == a + (b + c)
  {
  }

  const ZERO_DIGIT: byte := 0x30
  const COLON: byte := 0x3A

  predicate IsDigit(b: byte) {
    ZERO_DIGIT <= b <= ZERO_DIGIT + 9
  }

  predicate AllDigits(s: seq<byte>) {
    forall i :: 0 <= i < |s| ==> IsDigit(s[i])
  }

  /** The ASCII text of `n` in base ten with no sign and no leading zero, as
      Rust's `to_string` writes an unsigned integer. */
  function Decimal(n: nat): (s: seq<byte>)
    ensures 1 <= |s|
    ensures AllDigits(s)
    ensures s[0] == ZERO_DIGIT ==> n == 0 && s == [ZERO_DIGIT]
    decreases n
  {
    if n < 10 then [ZERO_DIGIT + n as byte]
    else Decimal(n / 10) + [ZERO_DIGIT + (n % 10) as byte]
  }

  /** The number a string of ASCII digits denotes in base ten. */
  function DigitsValue(s: seq<byte>): nat
    requires AllDigits(s)
  {
    if s == [] then 0
    else DigitsValue(s[..|s| - 1]) * 10 + (s[|s| - 1] - ZERO_DIGIT) as int
  }

  /** Reading the decimal text of `n` back gives `n`. */
  lemma {:induction false} DecimalRoundTrip(n: nat)
    ensures DigitsValue(Decimal(n)) == n
    decreases n
  {
    var s := Decimal(n);
    if n >= 10 {
      DecimalRoundTrip(n / 10);
      assert s[..|s| - 1] == Decimal(n / 10);
    }
  }
}

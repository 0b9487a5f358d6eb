/** Byte-level vocabulary shared by the other modules.

    A C `char` buffer is a `seq<byte>`; a NUL-terminated C string is the
    sequence of its bytes before the terminating NUL.  Character classes
    follow the C locale, which is the only locale the headers rely on. */
module Bytes {

  /** An octet; a subset of `int`, so a `seq<byte>` is also a `seq<int>`. */
  type byte = x: int | 0 <= x < 256

  /** 2^32, the modulus of C `uint32_t` arithmetic. */
  const TwoTo32: nat := 0x1_0000_0000
  type uint32 = x: int | 0 <= x < TwoTo32

  datatype Option<T> = None | Some(value: T)

  const NUL: byte := 0
  const HT: byte := 9
  const LF: byte := 10
  const CR: byte := 13
  const SP: byte := 32

  /** The bytes of a string literal: each character's code modulo 256, which
      for the ASCII literals used here is the character's byte. */
  function Str(s: string): (r: seq<byte>)
    ensures |r| == |s|
    ensures forall i :: 0 <= i < |s| ==> r[i] == s[i] as int % 256
  {
    seq(|s|, i requires 0 <= i < |s| => s[i] as int % 256)
  }

  /** No byte of `s` is NUL, so `s` is a complete C string. */
  predicate NoNul(s: seq<byte>) {
    forall i :: 0 <= i < |s| ==> s[i] != NUL
  }

  /** `isspace` in the C locale: space, tab, newline, vertical tab, form feed, carriage return. */
  predicate IsSpace(c: byte) {
    c == SP || 9 <= c <= 13
  }

  /** Space or tab, the only bytes the header parser trims. */
  predicate IsBlank(c: byte) {
    c == SP || c == HT
  }

  /** `isdigit` in the C locale. */
  predicate IsDigit(c: byte) {
    '0' as int <= c <= '9' as int
  }

  /** `isxdigit` in the C locale. */
  predicate IsHexDigit(c: byte) {
    IsDigit(c) || 'a' as int <= c <= 'f' as int || 'A' as int <= c <= 'F' as int
  }

  /** `tolower` in the C locale: only 'A'..'Z' change. */
  function ToLower(c: byte): (r: byte)
    ensures 'A' as int <= c <= 'Z' as int ==> r == c + 32
    ensures !('A' as int <= c <= 'Z' as int) ==> r == c
  {
    if 'A' as int <= c <= 'Z' as int then c + 32 else c
  }

  /** The value of a hexadecimal digit of either case. */
  function HexValue(c: byte): (v: nat)
    requires IsHexDigit(c)
    ensures v < 16
  {
    if IsDigit(c) then c - '0' as int
    else 10 + ToLower(c) - 'a' as int
  }

  /** The lowercase hexadecimal digit for `v`. */
  function HexDigit(v: nat): (c: byte)
    requires v < 16
    ensures IsHexDigit(c) && HexValue(c) == v
    ensures c < 'A' as int || 'a' as int <= c
  {
    if v < 10 then '0' as int + v else 'a' as int + (v - 10)
  }

  /** The value of a string of decimal digits, most significant first. */
  function DigitsValue(s: seq<byte>): nat
    requires forall i :: 0 <= i < |s| ==> IsDigit(s[i])
  {
    if s == [] then 0
    else
      assert IsDigit(s[|s| - 1]);
      DigitsValue(s[..|s| - 1]) * 10 + (s[|s| - 1] - '0' as int)
  }

  /** `printf("%u")`: the decimal form of `n`. */
  function Decimal(n: nat): (r: seq<byte>)
    ensures 1 <= |r|
    ensures forall i :: 0 <= i < |r| ==> IsDigit(r[i])
    ensures r[0] == '0' as int ==> n == 0 && |r| == 1
  {
    if n < 10 then ['0' as int + n] else Decimal(n / 10) + ['0' as int + n % 10]
  }

  /** Reading back the decimal form of `n` gives `n`. */
  lemma {:induction false} DecimalValue(n: nat)
    ensures DigitsValue(Decimal(n)) == n
  {
    if n >= 10 {
      var d := Decimal(n);
      assert d[..|d| - 1] == Decimal(n / 10);
      DecimalValue(n / 10);
    }
  }

  lemma Assoc<T>(a: seq<T>, b: seq<T>, c: seq<T>)
    ensures (a + b) + c == a + (b + c)
  {
  }
}

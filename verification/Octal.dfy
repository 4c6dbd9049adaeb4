/**
 The numeric fields of a ustar header: how `writeOctal` fills one
 (scripts/package-headless.ts) and how the "ustar Interchange Format" section
 of the `pax` utility in IEEE Std 1003.1-2017 says to read one.
 */
module Octal {
  import opened Prelude

  const NUL: byte := 0
  const SPACE: byte := 32
  const ZERO: byte := 48
  const SLASH: byte := 47

  function Pow8(n: nat): (r: nat)
    ensures r > 0
  {
    if n == 0 then 1 else 8 * Pow8(n - 1)
  }

  function Fill(b: byte, n: nat): (r: seq<byte>)
    ensures |r| == n && forall i | 0 <= i < n :: r[i] == b
  {
    seq(n, i => b)
  }

  predicate IsOctalDigit(b: byte) {
    48 <= b <= 55
  }

  predicate IsTerminator(b: byte) {
    b == NUL || b == SPACE
  }

  /** `value.toString(8)` */
  function ToOctal(v: nat): (r: seq<byte>)
    ensures |r| > 0 && forall i | 0 <= i < |r| :: IsOctalDigit(r[i])
  {
    if v < 8 then [48 + v] else ToOctal(v / 8) + [48 + v % 8]
  }

  /** `digits.padStart(width, "0")` */
  function PadStart(digits: seq<byte>, width: nat): seq<byte> {
    if |digits| < width then Fill(ZERO, width - |digits|) + digits else digits
  }

  /** The bytes `writeOctal` leaves in a field: `Buffer.write` stops at the field's end. */
  function OctalField(length: nat, v: nat): (r: seq<byte>)
    requires length > 0
    ensures |r| == length
  {
    (PadStart(ToOctal(v), length - 1) + [NUL])[..length]
  }

  function DigitValue(b: byte): nat
    requires IsOctalDigit(b)
  {
    b - 48
  }

  function Value(digits: seq<byte>): nat
    requires forall i | 0 <= i < |digits| :: IsOctalDigit(digits[i])
  {
    if digits == [] then 0 else Value(digits[..|digits| - 1]) * 8 + DigitValue(digits[|digits| - 1])
  }

  function LeadingDigits(field: seq<byte>): (n: nat)
    ensures n <= |field|
    ensures forall i | 0 <= i < n :: IsOctalDigit(field[i])
    ensures n < |field| ==> !IsOctalDigit(field[n])
  {
    if field == [] || !IsOctalDigit(field[0]) then 0 else 1 + LeadingDigits(field[1..])
  }

  /**
   The reader the standard describes: octal digits, then one or more terminators
   up to the end of the field. A field with no digit or no terminator is refused.
   */
  function ReadOctal(field: seq<byte>): Option<nat> {
    var n := LeadingDigits(field);
    if n == 0 || n == |field| || exists i | n <= i < |field| :: !IsTerminator(field[i]) then None
    else Some(Value(field[..n]))
  }

  lemma {:induction false} ValueOfToOctal(v: nat)
    ensures Value(ToOctal(v)) == v
  {
    if v >= 8 {
      ValueOfToOctal(v / 8);
      var r := ToOctal(v / 8) + [48 + v % 8];
      assert r[..|r| - 1] == ToOctal(v / 8);
    }
  }

  lemma {:induction false} PaddingKeepsValue(n: nat, digits: seq<byte>)
    requires forall i | 0 <= i < |digits| :: IsOctalDigit(digits[i])
    ensures Value(Fill(ZERO, n) + digits) == Value(digits)
  {
    var all := Fill(ZERO, n) + digits;
    if digits != [] {
      assert all[..|all| - 1] == Fill(ZERO, n) + digits[..|digits| - 1];
      PaddingKeepsValue(n, digits[..|digits| - 1]);
    } else if n > 0 {
      assert all[..n - 1] == Fill(ZERO, n - 1) + [];
      PaddingKeepsValue(n - 1, []);
    }
  }

  /** A number takes at most `n` octal digits exactly when it is below 8 to the `n`. */
  lemma {:induction false} DigitCount(v: nat, n: nat)
    requires n > 0
    ensures |ToOctal(v)| <= n <==> v < Pow8(n)
  {
    assert Pow8(n) == 8 * Pow8(n - 1);
    if n == 1 {
      assert Pow8(1) == 8 * Pow8(0);
    } else if v >= 8 {
      DigitCount(v / 8, n - 1);
    } else {
      assert Pow8(n - 1) >= 1;
    }
  }

  /** Digits, then at least one terminator and nothing else, read as the digits' value. */
  lemma ReadTerminated(digits: seq<byte>, tail: seq<byte>)
    requires |digits| > 0 && forall i | 0 <= i < |digits| :: IsOctalDigit(digits[i])
    requires |tail| > 0 && forall i | 0 <= i < |tail| :: IsTerminator(tail[i])
    ensures ReadOctal(digits + tail) == Some(Value(digits))
  {
    var field := digits + tail;
    var n := LeadingDigits(field);
    assert field[|digits|] == tail[0] && !IsOctalDigit(tail[0]);
    assert forall i | 0 <= i < |digits| :: field[i] == digits[i];
    assert n == |digits|;
    assert field[..n] == digits;
    assert forall i | n <= i < |field| :: field[i] == tail[i - n];
  }

  lemma FieldWithRoom(length: nat, v: nat)
    requires length > 1 && |ToOctal(v)| <= length - 1
    ensures ReadOctal(OctalField(length, v)) == Some(v)
  {
    var digits := Fill(ZERO, length - 1 - |ToOctal(v)|) + ToOctal(v);
    ValueOfToOctal(v);
    PaddingKeepsValue(length - 1 - |ToOctal(v)|, ToOctal(v));
    assert PadStart(ToOctal(v), length - 1) == digits;
    assert OctalField(length, v) == digits + [NUL];
    ReadTerminated(digits, [NUL]);
  }

  /** A field with room for its number is digits up to the last byte, which is zero. */
  lemma OctalFieldBytes(length: nat, v: nat)
    requires length > 1 && v < Pow8(length - 1)
    ensures var field := OctalField(length, v);
      (forall i | 0 <= i < length - 1 :: IsOctalDigit(field[i])) && field[length - 1] == NUL
  {
    DigitCount(v, length - 1);
    assert PadStart(ToOctal(v), length - 1) == Fill(ZERO, length - 1 - |ToOctal(v)|) + ToOctal(v);
  }

  lemma FieldWithoutRoom(length: nat, v: nat)
    requires length > 1 && |ToOctal(v)| >= length
    ensures ReadOctal(OctalField(length, v)) == None
  {
  }

  /** A field holds its number exactly when the number leaves room for the terminator. */
  lemma OctalFieldReads(length: nat, v: nat)
    requires length > 1
    ensures ReadOctal(OctalField(length, v)) == if v < Pow8(length - 1) then Some(v) else None
  {
    DigitCount(v, length - 1);
    if v < Pow8(length - 1) {
      FieldWithRoom(length, v);
    } else {
      FieldWithoutRoom(length, v);
    }
  }
}

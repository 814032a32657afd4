/** Decimal text of integers and of scores rounded to four decimals, as the hashed audit fields
    carry them (backend/src/main/java/com/claimguard/service/AuditService.java:144, 151-158). */
module Numerals {
  import opened Json

  function Digit(d: int): char
    requires 0 <= d < 10
  {
    "0123456789"[d]
  }

  function Digits(n: nat): (s: string)
    ensures NumberLexeme(s) && s[0] != '-'
  {
    if n < 10 then [Digit(n)] else Digits(n / 10) + [Digit(n % 10)]
  }

  function IntText(n: int): (s: string)
    ensures NumberLexeme(s)
  {
    if n < 0 then "-" + Digits(-n) else Digits(n)
  }

  lemma DigitInjective(m: int, n: int)
    requires 0 <= m < 10 && 0 <= n < 10 && Digit(m) == Digit(n)
    ensures m == n
  {
    assert forall i, j :: 0 <= i < j < 10 ==> "0123456789"[i] != "0123456789"[j];
  }

  lemma {:induction false} DigitsInjective(m: nat, n: nat)
    requires Digits(m) == Digits(n)
    ensures m == n
  {
    var s := Digits(m);
    DigitsLength(m);
    DigitsLength(n);
    assert s[|s| - 1] == Digit(m % 10) == Digit(n % 10);
    DigitInjective(m % 10, n % 10);
    if m >= 10 && n >= 10 {
      assert s[..|s| - 1] == Digits(m / 10) == Digits(n / 10);
      DigitsInjective(m / 10, n / 10);
    }
  }

  lemma DigitsLength(n: nat)
    ensures |Digits(n)| == 1 <==> n < 10
  {
    if n >= 10 { assert |Digits(n / 10)| >= 1; }
  }

  lemma IntTextInjective(m: int, n: int)
    requires IntText(m) == IntText(n)
    ensures m == n
  {
    if m < 0 && n < 0 {
      assert Digits(-m) == IntText(m)[1..] && Digits(-n) == IntText(n)[1..];
      DigitsInjective(-m, -n);
    } else if m >= 0 && n >= 0 {
      DigitsInjective(m, n);
    }
  }

  // ----- four decimals -----

  /** The score in ten-thousandths, rounded half away from zero: what BigDecimal.setScale(4,
      HALF_UP) yields, and equally what a NUMERIC(5, 4) column stores. */
  function Round4(x: real): int {
    if x >= 0.0 then (x * 10000.0 + 0.5).Floor else -((-x * 10000.0 + 0.5).Floor)
  }

  function FromTenThousandths(n: int): real { n as real / 10000.0 }

  /** A NUMERIC(5, 4) column has one digit before the point. */
  predicate FitsColumn(x: real) { -100000 < Round4(x) < 100000 }

  /** Rounding a stored score again changes nothing, so its text is that of the original. */
  lemma RoundingIsStable(x: real)
    ensures Round4(FromTenThousandths(Round4(x))) == Round4(x)
  {
    var n := Round4(x);
    var y := FromTenThousandths(n);
    assert y * 10000.0 == n as real;
    assert (n as real + 0.5).Floor == n;
    if y < 0.0 {
      assert -y * 10000.0 == (-n) as real;
      assert ((-n) as real + 0.5).Floor == -n;
    }
  }

  /** Rounding moves a score by at most half a ten-thousandth, and ties go away from zero. */
  lemma RoundingIsNearest(x: real)
    ensures -0.5 <= Round4(x) as real - x * 10000.0 <= 0.5
    ensures x >= 0.0 ==> Round4(x) as real - x * 10000.0 > -0.5
    ensures x < 0.0 ==> Round4(x) as real - x * 10000.0 < 0.5
  {
  }

  /** The last `width` decimal digits of n, zeros included. */
  function Pad(n: nat, width: nat): (s: string)
    ensures |s| == width
  {
    if width == 0 then "" else Pad(n / 10, width - 1) + [Digit(n % 10)]
  }

  function Power10(k: nat): nat { if k == 0 then 1 else 10 * Power10(k - 1) }

  /** The plain text of n ten-thousandths. */
  function Fixed4(n: int): string {
    var m := if n < 0 then -n else n;
    (if n < 0 then "-" else "") + Digits(m / 10000) + "." + Pad(m % 10000, 4)
  }

  lemma {:induction false} PadInjective(m: nat, n: nat, width: nat)
    requires m < Power10(width) && n < Power10(width) && Pad(m, width) == Pad(n, width)
    ensures m == n
  {
    if width > 0 {
      var s := Pad(m, width);
      assert s[width - 1] == Digit(m % 10) == Digit(n % 10);
      assert s[..width - 1] == Pad(m / 10, width - 1) == Pad(n / 10, width - 1);
      DigitInjective(m % 10, n % 10);
      PadInjective(m / 10, n / 10, width - 1);
    }
  }

  lemma Fixed4Injective(m: int, n: int)
    requires Fixed4(m) == Fixed4(n)
    ensures m == n
  {
    hide Digits, Pad;
    var a, b := if m < 0 then -m else m, if n < 0 then -n else n;
    var s := Fixed4(m);
    var x, y := (if m < 0 then "-" else "") + Digits(a / 10000), (if n < 0 then "-" else "") + Digits(b / 10000);
    assert s == x + ("." + Pad(a % 10000, 4)) == y + ("." + Pad(b % 10000, 4));
    assert s[|s| - 4..] == Pad(a % 10000, 4) == Pad(b % 10000, 4);
    assert Power10(4) == 10000;
    PadInjective(a % 10000, b % 10000, 4);
    assert x == s[..|s| - 5] == y;
    assert (m < 0) == (x[0] == '-') == (y[0] == '-') == (n < 0);
    assert Digits(a / 10000) == x[if m < 0 then 1 else 0..];
    assert Digits(b / 10000) == y[if n < 0 then 1 else 0..];
    DigitsInjective(a / 10000, b / 10000);
    assert a == a / 10000 * 10000 + a % 10000;
    assert b == b / 10000 * 10000 + b % 10000;
  }

  // ----- reading the texts back -----

  /** The number that decimal digits stand for. */
  function ReadDigits(s: string): int {
    if s == "" then 0 else 10 * ReadDigits(s[..|s| - 1]) + (s[|s| - 1] as int - '0' as int)
  }

  /** A whole number with an optional minus sign. */
  function ReadInt(s: string): int {
    if s != "" && s[0] == '-' then -ReadDigits(s[1..]) else ReadDigits(s)
  }

  lemma DigitReads(d: int)
    requires 0 <= d < 10
    ensures Digit(d) as int - '0' as int == d
  {
  }

  lemma {:induction false} DigitsRead(n: nat)
    ensures ReadDigits(Digits(n)) == n
  {
    DigitReads(n % 10);
    hide Digit;
    if n < 10 {
      assert [Digit(n)][..0] == [];
    } else {
      DigitsRead(n / 10);
      assert (Digits(n / 10) + [Digit(n % 10)])[..|Digits(n / 10)|] == Digits(n / 10);
    }
  }

  /** The text of a whole number is its decimal text. */
  lemma IntTextReads(n: int)
    ensures ReadInt(IntText(n)) == n
  {
    hide ReadDigits, Digits;
    if n < 0 {
      DigitsRead(-n);
      assert IntText(n)[1..] == Digits(-n);
    } else {
      DigitsRead(n);
    }
  }

  lemma {:induction false} PadReads(n: nat, width: nat)
    requires n < Power10(width)
    ensures ReadDigits(Pad(n, width)) == n
  {
    if width > 0 {
      DigitReads(n % 10);
      hide Digit;
      PadReads(n / 10, width - 1);
      assert (Pad(n / 10, width - 1) + [Digit(n % 10)])[..width - 1] == Pad(n / 10, width - 1);
    }
  }

  /** The text of n ten-thousandths has a point before its last four digits, and read as a decimal
      fraction it is n / 10000. */
  lemma Fixed4Reads(n: int)
    ensures var s := Fixed4(n);
      && |s| >= 6 && s[|s| - 5] == '.' && (s[0] == '-' <==> n < 0)
      && var magnitude := 10000 * ReadDigits(s[if n < 0 then 1 else 0..|s| - 5]) + ReadDigits(s[|s| - 4..]);
         n == if n < 0 then -magnitude else magnitude
  {
    hide Digits, Pad, ReadDigits;
    var m := if n < 0 then -n else n;
    var sign, whole, part := if n < 0 then "-" else "", Digits(m / 10000), Pad(m % 10000, 4);
    DigitsRead(m / 10000);
    assert Power10(4) == 10000;
    PadReads(m % 10000, 4);
    var s := Fixed4(n);
    assert s == (sign + whole) + ("." + part);
    assert s[..|s| - 5] == sign + whole && s[|s| - 4..] == part;
    assert s[if n < 0 then 1 else 0..|s| - 5] == whole;
  }

  /** Which scores the column holds. */
  lemma FitsColumnExactly(x: real)
    ensures FitsColumn(x) <==> -9.99995 < x < 9.99995
  {
  }
}

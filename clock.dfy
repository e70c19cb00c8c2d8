/** What the clock displays are built from: JavaScript's String(n) for an
    integer n, String.prototype.padStart(2, '0'), and the `%` operator of
    JavaScript numbers; and the decimal reading that undoes the rendering. */
module Clock {

  predicate IsDigit(c: char) {
    '0' <= c <= '9'
  }

  /** Every character of s is a decimal digit. */
  predicate AllDigits(s: string)
    decreases |s|
  {
    s == [] || (AllDigits(s[..|s| - 1]) && IsDigit(s[|s| - 1]))
  }

  function DigitChar(d: nat): (c: char)
    requires d < 10
    ensures IsDigit(c) && c as int - '0' as int == d
  {
    ('0' as int + d) as char
  }

  /** The number a digit character stands for. */
  function DigitValue(c: char): (d: int)
    ensures IsDigit(c) ==> 0 <= d < 10 && DigitChar(d) == c
  {
    c as int - '0' as int
  }

  /** The decimal digits of n, most significant first, without leading
      zeros: what String(n) gives for a non-negative integer. */
  function Decimal(n: nat): (s: string)
    ensures |s| >= 1 && AllDigits(s)
    ensures s[0] == '0' <==> n == 0
    ensures n < 10 <==> |s| == 1
    ensures n < 100 <==> |s| <= 2
    decreases n
  {
    if n < 10 then [DigitChar(n)]
    else
      var p := Decimal(n / 10);
      assert (p + [DigitChar(n % 10)])[..|p|] == p;
      p + [DigitChar(n % 10)]
  }

  /** The number a string of decimal digits denotes (leading zeros allowed);
      it is only meant for strings of which AllDigits holds. */
  function Value(s: string): int
    decreases |s|
  {
    if s == [] then 0 else Value(s[..|s| - 1]) * 10 + DigitValue(s[|s| - 1])
  }

  /** Reading the decimal rendering of n gives n back. */
  lemma {:induction false} ValueOfDecimal(n: nat)
    ensures Value(Decimal(n)) == n
  {
    if n >= 10 {
      var p := Decimal(n / 10);
      var s := Decimal(n);
      assert s[..|s| - 1] == p;
      ValueOfDecimal(n / 10);
    }
  }

  /** String(i) for an integer i: a minus sign before the digits of a
      negative number. */
  function IntString(i: int): string {
    if i < 0 then "-" + Decimal(-i) else Decimal(i)
  }

  /** s.padStart(2, '0'): zeros are put in front until the string is two
      characters long; a longer string is left as it is. */
  function PadStart2(s: string): (r: string)
    ensures |r| == if |s| < 2 then 2 else |s|
    ensures r[|r| - |s|..] == s
    ensures |s| < 2 ==> r[..2 - |s|] == "00"[..2 - |s|]
  {
    if |s| == 0 then "00" else if |s| == 1 then "0" + s else s
  }

  /** A padded rendering of a non-negative number is all digits and still
      denotes that number; it is exactly two characters long below 100. */
  lemma PaddedValue(n: nat)
    ensures var r := PadStart2(IntString(n));
      |r| >= 2 && AllDigits(r) && Value(r) == n && (n < 100 <==> |r| == 2)
  {
    var s := Decimal(n);
    assert IntString(n) == s;
    ValueOfDecimal(n);
    var r := PadStart2(s);
    if |s| == 1 {
      assert r == ['0', s[0]];
      assert r[..1] == ['0'];
      assert [s[0]][..0] == [];
      assert Value([s[0]]) == DigitValue(s[0]);
      assert Value(r) == Value(['0']) * 10 + DigitValue(s[0]);
    }
  }

  /** r displays a and b: digits denoting a, a ':' and two digits denoting
      b. */
  predicate Shows2(r: string, a: int, b: int) {
    |r| >= 3 && r[|r| - 3] == ':'
    && AllDigits(r[..|r| - 3]) && AllDigits(r[|r| - 2..])
    && Value(r[..|r| - 3]) == a && Value(r[|r| - 2..]) == b
  }

  /** r displays a, b and c: digits denoting a, then ':' and two digits
      denoting b, then ':' and two digits denoting c. */
  predicate Shows3(r: string, a: int, b: int, c: int) {
    |r| >= 6 && r[|r| - 6] == ':' && r[|r| - 3] == ':'
    && AllDigits(r[..|r| - 6]) && AllDigits(r[|r| - 5..|r| - 3]) && AllDigits(r[|r| - 2..])
    && Value(r[..|r| - 6]) == a && Value(r[|r| - 5..|r| - 3]) == b && Value(r[|r| - 2..]) == c
  }

  /** Two digit strings joined by ':', the second of two characters, display
      the numbers they denote. */
  lemma JoinParts2(x: string, y: string, a: nat, b: nat)
    requires |y| == 2 && AllDigits(x) && AllDigits(y)
    requires Value(x) == a && Value(y) == b
    ensures |x + ":" + y| == |x| + 3 && Shows2(x + ":" + y, a, b)
  {
    var r := x + ":" + y;
    assert r[..|r| - 3] == x;
    assert r[|r| - 2..] == y;
  }

  /** Three digit strings joined by ':', the last two of two characters,
      display the numbers they denote. */
  lemma JoinParts3(x: string, y: string, z: string, a: nat, b: nat, c: nat)
    requires |y| == 2 && |z| == 2
    requires AllDigits(x) && AllDigits(y) && AllDigits(z)
    requires Value(x) == a && Value(y) == b && Value(z) == c
    ensures |x + ":" + y + ":" + z| == |x| + 6 && Shows3(x + ":" + y + ":" + z, a, b, c)
  {
    var r := x + ":" + y + ":" + z;
    assert r[..|r| - 6] == x;
    assert r[|r| - 5..|r| - 3] == y;
    assert r[|r| - 2..] == z;
  }

  /** Two fields rendered with String, padded to two characters and joined
      by ':'. */
  function Join2(a: int, b: int): string {
    PadStart2(IntString(a)) + ":" + PadStart2(IntString(b))
  }

  /** Three fields rendered the same way. */
  function Join3(a: int, b: int, c: int): string {
    Join2(a, b) + ":" + PadStart2(IntString(c))
  }

  /** Two non-negative fields, the second below 100, are read back from
      their display, which is at least five characters long and exactly five
      when the first field is below 100. */
  lemma Join2ReadsBack(a: nat, b: nat)
    requires b < 100
    ensures Shows2(Join2(a, b), a, b)
    ensures |Join2(a, b)| >= 5 && (a < 100 <==> |Join2(a, b)| == 5)
  {
    var x := PadStart2(IntString(a));
    var y := PadStart2(IntString(b));
    PaddedValue(a);
    PaddedValue(b);
    JoinParts2(x, y, a, b);
    assert Join2(a, b) == x + ":" + y;
  }

  /** Three non-negative fields, the last two below 100, are read back from
      their display, which is at least eight characters long. */
  lemma Join3ReadsBack(a: nat, b: nat, c: nat)
    requires b < 100 && c < 100
    ensures Shows3(Join3(a, b, c), a, b, c) && |Join3(a, b, c)| >= 8
  {
    var x := PadStart2(IntString(a));
    var y := PadStart2(IntString(b));
    var z := PadStart2(IntString(c));
    PaddedValue(a);
    PaddedValue(b);
    PaddedValue(c);
    JoinParts3(x, y, z, a, b, c);
    assert Join3(a, b, c) == x + ":" + y + ":" + z;
  }

  /** The quotient of a / b truncated toward zero (Math.trunc(a / b)). */
  function TruncDiv(a: int, b: int): int
    requires b > 0
  {
    if a >= 0 then a / b else -((-a) / b)
  }

  /** JavaScript's a % b for integers and a positive divisor: the remainder
      of the division truncated toward zero, which takes the sign of the
      dividend (Dafny's own `%` is never negative). */
  function JsRem(a: int, b: int): (r: int)
    requires b > 0
    ensures a >= 0 ==> 0 <= r < b
    ensures a < 0 ==> -b < r <= 0
    ensures a == TruncDiv(a, b) * b + r
  {
    if a >= 0 then a % b else -((-a) % b)
  }
}

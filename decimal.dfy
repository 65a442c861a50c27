/** Decimal digit strings: the pieces of Go's strconv and fmt that the
    amount code relies on (FormatUint in base 10, ParseUint's digit value,
    strings.TrimRight(s, "0") and the zero padding of the %0*d verb). */
module Decimal {

  predicate IsDigit(c: char) {
    '0' <= c <= '9'
  }

  predicate AllDigits(s: string) {
    forall i :: 0 <= i < |s| ==> IsDigit(s[i])
  }

  function DigitValue(c: char): (d: nat)
    requires IsDigit(c)
    ensures d < 10
  {
    c as int - '0' as int
  }

  function DigitChar(d: nat): (c: char)
    requires d < 10
    ensures IsDigit(c) && DigitValue(c) == d
  {
    ('0' as int + d) as char
  }

  function Pow10(k: nat): (p: nat)
    ensures p >= 1
  {
    if k == 0 then 1 else 10 * Pow10(k - 1)
  }

  lemma {:induction false} Pow10Add(i: nat, j: nat)
    ensures Pow10(i + j) == Pow10(i) * Pow10(j)
  {
    if i > 0 {
      Pow10Add(i - 1, j);
    }
  }

  lemma Pow10Of78()
    ensures Pow10(7) == 10_000_000 && Pow10(8) == 100_000_000
  {
  }

  lemma {:induction false} Pow10Monotone(i: nat, j: nat)
    requires i <= j
    ensures Pow10(i) <= Pow10(j)
  {
    if i < j {
      Pow10Monotone(i, j - 1);
    }
  }

  /** Pow10Monotone without a precondition, for use where the order of i
      and j is what is being decided. */
  lemma Pow10Order(i: nat, j: nat)
    ensures i <= j ==> Pow10(i) <= Pow10(j)
  {
    if i <= j {
      Pow10Monotone(i, j);
    }
  }

  /** The number a digit string denotes, most significant digit first. */
  function Value(s: string): (v: nat)
    requires AllDigits(s)
    ensures v < Pow10(|s|)
  {
    if s == [] then 0 else 10 * Value(s[..|s| - 1]) + DigitValue(s[|s| - 1])
  }

  lemma ValueAppend(s: string, c: char)
    requires AllDigits(s) && IsDigit(c)
    ensures AllDigits(s + [c]) && Value(s + [c]) == 10 * Value(s) + DigitValue(c)
  {
    assert (s + [c])[..|s|] == s;
  }

  /** strconv.FormatUint(n, 10): the shortest decimal digit string of n. */
  function FormatUint(n: nat): (r: string)
    ensures |r| >= 1 && AllDigits(r) && Value(r) == n
    ensures r[0] == '0' ==> n == 0 && r == "0"
    ensures n < Pow10(|r|) && (n > 0 ==> Pow10(|r| - 1) <= n)
  {
    if n < 10 then
      [DigitChar(n)]
    else
      var prefix := FormatUint(n / 10);
      ValueAppend(prefix, DigitChar(n % 10));
      prefix + [DigitChar(n % 10)]
  }

  /** Two numbers with the same rendering are equal, and vice versa. */
  lemma FormatUintInjective(m: nat, n: nat)
    ensures FormatUint(m) == FormatUint(n) <==> m == n
  {
  }

  /** The length of the rendering is fixed by the number's magnitude. */
  lemma FormatUintLength(n: nat, k: nat)
    requires k >= 1 && Pow10(k - 1) <= n < Pow10(k)
    ensures |FormatUint(n)| == k
  {
    var r := FormatUint(n);
    Pow10Order(|r|, k - 1);
    Pow10Order(k, |r| - 1);
  }

  /** A number below 10^n takes at most n digits. */
  lemma FormatUintWithin(q: nat, n: nat)
    requires n >= 1 && q < Pow10(n)
    ensures |FormatUint(q)| <= n
  {
    Pow10Order(n, |FormatUint(q)| - 1);
  }

  /** strings.TrimRight(s, "0"): drop every trailing '0'. */
  function TrimZeros(s: string): (r: string)
    ensures |r| <= |s| && r == s[..|r|]
    ensures r == [] || r[|r| - 1] != '0'
    ensures forall i :: |r| <= i < |s| ==> s[i] == '0'
  {
    if s != [] && s[|s| - 1] == '0' then TrimZeros(s[..|s| - 1]) else s
  }

  /** Dropping k trailing zeros divides the denoted number by 10^k exactly. */
  lemma {:induction false} ValueTrimZeros(s: string)
    requires AllDigits(s)
    ensures AllDigits(TrimZeros(s))
    ensures Value(s) == Value(TrimZeros(s)) * Pow10(|s| - |TrimZeros(s)|)
  {
    if s != [] && s[|s| - 1] == '0' {
      var init := s[..|s| - 1];
      ValueTrimZeros(init);
      var t := TrimZeros(init);
      assert TrimZeros(s) == t;
      var v, q := Value(t), Pow10(|init| - |t|);
      assert Value(s) == 10 * Value(init);
      assert Pow10(|s| - |t|) == 10 * q;
      MulTen(v, q);
    }
  }

  lemma MulTen(v: nat, q: nat)
    ensures 10 * (v * q) == v * (10 * q)
  {
  }

  lemma MulAssoc(x: nat, y: nat, z: nat)
    ensures x * (y * z) == (x * y) * z
  {
  }

  /** Read as the digits after "0.", scaled to n places, a digit string
      denotes the same number with or without its trailing zeros. */
  lemma ScaleTrimZeros(d: string, n: nat)
    requires AllDigits(d) && |d| <= n
    ensures AllDigits(TrimZeros(d))
    ensures Value(TrimZeros(d)) * Pow10(n - |TrimZeros(d)|) == Value(d) * Pow10(n - |d|)
  {
    var t := TrimZeros(d);
    ValueTrimZeros(d);
    var x, y, z := Value(t), Pow10(|d| - |t|), Pow10(n - |d|);
    Pow10Add(|d| - |t|, n - |d|);
    assert Pow10(n - |t|) == y * z;
    MulAssoc(x, y, z);
  }

  function Zeros(k: nat): (r: string)
    ensures |r| == k && forall i :: 0 <= i < k ==> r[i] == '0'
  {
    if k == 0 then "" else Zeros(k - 1) + "0"
  }

  /** The zero padding of fmt's %0*d verb: pad on the left to at least `width`
      characters, never truncate. */
  function PadLeft(s: string, width: nat): (r: string)
    ensures |r| == if |s| >= width then |s| else width
    ensures r[|r| - |s|..] == s
    ensures forall i :: 0 <= i < |r| - |s| ==> r[i] == '0'
  {
    if |s| >= width then s else Zeros(width - |s|) + s
  }

  /** Padded to width n >= 1, a number's digits are exactly n long, or
      longer and without a leading zero. */
  lemma PadLeftWidth(q: nat, n: nat)
    requires n >= 1
    ensures var d := PadLeft(FormatUint(q), n);
      |d| == n || (|d| > n && d[0] != '0')
  {
    var s := FormatUint(q);
    if |s| > n {
      assert PadLeft(s, n) == s;
    }
  }

  lemma {:induction false} ValueLeadingZeros(k: nat, s: string)
    requires AllDigits(s)
    ensures AllDigits(Zeros(k) + s) && Value(Zeros(k) + s) == Value(s)
    decreases |s|
  {
    var z := Zeros(k);
    if s == [] {
      assert z + s == z;
      ValueOfZeros(k);
    } else {
      var init := s[..|s| - 1];
      ValueLeadingZeros(k, init);
      assert z + s == (z + init) + [s[|s| - 1]];
      ValueAppend(z + init, s[|s| - 1]);
    }
  }

  lemma {:induction false} ValueOfZeros(k: nat)
    ensures AllDigits(Zeros(k)) && Value(Zeros(k)) == 0
  {
    if k > 0 {
      ValueOfZeros(k - 1);
      assert Zeros(k) == Zeros(k - 1) + ['0'];
      ValueAppend(Zeros(k - 1), '0');
    }
  }

  /** Zero padding does not change the number a digit string denotes. */
  lemma ValuePadLeft(s: string, width: nat)
    requires AllDigits(s)
    ensures AllDigits(PadLeft(s, width)) && Value(PadLeft(s, width)) == Value(s)
  {
    if |s| < width {
      ValueLeadingZeros(width - |s|, s);
    }
  }

  /** Multiplying by 10^k appends k zeros to the rendering. */
  lemma {:induction false} FormatUintShift(d: nat, k: nat)
    requires d >= 1
    ensures FormatUint(d * Pow10(k)) == FormatUint(d) + Zeros(k)
  {
    if k == 0 {
      assert d * Pow10(0) == d;
      assert FormatUint(d) + Zeros(0) == FormatUint(d);
    } else {
      var m := d * Pow10(k - 1);
      FormatUintShift(d, k - 1);
      MulTenRight(d, Pow10(k - 1));
      PositiveProduct(d, Pow10(k - 1));
      AppendZero(m, d * Pow10(k), FormatUint(d), k);
    }
  }

  lemma AppendZero(m: nat, n: nat, prefix: string, k: nat)
    requires m >= 1 && n == 10 * m && k >= 1
    requires FormatUint(m) == prefix + Zeros(k - 1)
    ensures FormatUint(n) == prefix + Zeros(k)
  {
    FormatUintTimesTen(m);
    assert prefix + Zeros(k) == (prefix + Zeros(k - 1)) + "0";
  }

  lemma FormatUintTimesTen(m: nat)
    requires m >= 1
    ensures FormatUint(10 * m) == FormatUint(m) + "0"
  {
    assert (10 * m) / 10 == m && (10 * m) % 10 == 0;
  }

  lemma MulTenRight(d: nat, q: nat)
    ensures d * (10 * q) == 10 * (d * q)
  {
  }

  lemma PositiveProduct(x: nat, y: nat)
    requires x >= 1 && y >= 1
    ensures x * y >= 1
  {
  }

  /** Trailing zeros appended to a string that does not end in '0' are
      exactly what TrimZeros removes. */
  lemma {:induction false} TrimZerosAfter(s: string, k: nat)
    requires s != [] && s[|s| - 1] != '0'
    ensures TrimZeros(s + Zeros(k)) == s
  {
    if k == 0 {
      assert s + Zeros(0) == s;
    } else {
      TrimZerosAfter(s, k - 1);
      assert s + Zeros(k) == (s + Zeros(k - 1)) + ['0'];
      assert (s + Zeros(k))[..|s| + k - 1] == s + Zeros(k - 1);
    }
  }
}

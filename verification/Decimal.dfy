/** Decimal text: `strconv.FormatUint`, `strconv.ParseUint`, `strconv.ParseInt` and the `%020d` verb. */
module Decimal {
  import opened ByteOrder
  import opened Options

  const ZERO: Byte := 48
  const PLUS: Byte := 43
  const MINUS: Byte := 45
  const MAX_UINT64: nat := 0xFFFF_FFFF_FFFF_FFFF
  const MAX_INT64: nat := 0x7FFF_FFFF_FFFF_FFFF
  const MIN_INT64: int := -0x8000_0000_0000_0000
  const WIDTH: nat := 20

  predicate IsUint64(n: int) { 0 <= n <= MAX_UINT64 }

  predicate IsInt64(n: int) { MIN_INT64 <= n <= MAX_INT64 }

  /** Addition on int64, which wraps around. */
  function AddInt64(a: int, b: int): (c: int)
    ensures IsInt64(c)
    ensures IsInt64(a + b) ==> c == a + b
  {
    (a + b - MIN_INT64) % (MAX_UINT64 + 1) + MIN_INT64
  }

  function FormatUint(n: nat): Bytes
  {
    if n < 10 then [ZERO + n] else FormatUint(n / 10) + [ZERO + n % 10]
  }

  predicate AllDigits(s: Bytes)
  {
    forall i | 0 <= i < |s| :: ZERO <= s[i] < ZERO + 10
  }

  function Value(s: Bytes): nat
    requires AllDigits(s)
  {
    if s == [] then 0 else Value(s[..|s| - 1]) * 10 + (s[|s| - 1] - ZERO)
  }

  function ParseUint(s: Bytes): Option<nat>
  {
    if s == [] || !AllDigits(s) || Value(s) > MAX_UINT64 then None else Some(Value(s))
  }

  function ParseInt(s: Bytes): Option<int>
  {
    var signed := s != [] && (s[0] == MINUS || s[0] == PLUS);
    var digits := if signed then s[1..] else s;
    if digits == [] || !AllDigits(digits) then None else
      var v: int := Value(digits);
      var n := if signed && s[0] == MINUS then -v else v;
      if IsInt64(n) then Some(n) else None
  }

  function Zeros(k: nat): (z: Bytes)
    ensures |z| == k && AllDigits(z)
  {
    seq(k, i => ZERO)
  }

  function ZeroPad(n: nat, width: nat): Bytes
  {
    var d := FormatUint(n);
    if |d| >= width then d else Zeros(width - |d|) + d
  }

  /** `fmt.Sprintf("%020d", n)`: the sign counts towards the width. */
  function Pad20(n: int): Bytes
  {
    if n < 0 then [MINUS] + ZeroPad(-n, WIDTH - 1) else ZeroPad(n, WIDTH)
  }

  function Pow10(w: nat): nat
  {
    if w == 0 then 1 else 10 * Pow10(w - 1)
  }

  lemma FormatDigits(n: nat)
    ensures AllDigits(FormatUint(n)) && FormatUint(n) != []
    ensures Value(FormatUint(n)) == n
  {
  }

  /** Counters are stored as plain decimal text and read back unchanged. */
  lemma ParseFormat(n: nat)
    requires IsUint64(n)
    ensures ParseUint(FormatUint(n)) == Some(n)
  {
    FormatDigits(n);
  }

  lemma {:induction false} FormatLength(n: nat, w: nat)
    requires w >= 1 && n < Pow10(w)
    ensures |FormatUint(n)| <= w
  {
    if n < 10 {
    } else {
      assert w >= 2 by { assert Pow10(1) == 10 * Pow10(0); }
      FormatLength(n / 10, w - 1);
    }
  }

  lemma {:induction false} LeadingZeros(k: nat, d: Bytes)
    requires AllDigits(d)
    ensures AllDigits(Zeros(k) + d) && Value(Zeros(k) + d) == Value(d)
  {
    var s := Zeros(k) + d;
    if d != [] {
      LeadingZeros(k, d[..|d| - 1]);
      assert s[..|s| - 1] == Zeros(k) + d[..|d| - 1];
    } else if k > 0 {
      LeadingZeros(k - 1, []);
      assert s[..|s| - 1] == Zeros(k - 1) + [];
    }
  }

  lemma {:induction false} ZeroPadDigits(n: nat, w: nat)
    requires w >= 1 && n < Pow10(w)
    ensures |ZeroPad(n, w)| == w && AllDigits(ZeroPad(n, w)) && Value(ZeroPad(n, w)) == n
  {
    FormatLength(n, w);
    FormatDigits(n);
    if |FormatUint(n)| < w {
      LeadingZeros(w - |FormatUint(n)|, FormatUint(n));
    }
  }

  lemma OneByteOrder(x: Byte, y: Byte)
    ensures Less([x], [y]) <==> x < y
  {
  }

  /** Digit strings of the same length sort as text in numeric order. */
  lemma {:induction false} DigitOrder(s: Bytes, t: Bytes)
    requires AllDigits(s) && AllDigits(t) && |s| == |t|
    ensures Less(s, t) <==> Value(s) < Value(t)
    ensures s == t <==> Value(s) == Value(t)
  {
    if s == [] {
      assert !Less(s, t);
    } else {
      hide Less;
      var k := |s| - 1;
      DigitOrder(s[..k], t[..k]);
      LessByHeads(s[..k], t[..k], [s[k]], [t[k]]);
      OneByteOrder(s[k], t[k]);
      assert s == s[..k] + [s[k]] && t == t[..k] + [t[k]];
    }
  }

  lemma Pow10Bounds()
    ensures MAX_UINT64 < Pow10(20) && MAX_INT64 + 1 < Pow10(19)
  {
    assert Pow10(5) == 100_000;
    assert Pow10(10) == 100_000 * Pow10(5);
    assert Pow10(15) == 100_000 * Pow10(10);
    assert Pow10(20) == 100_000 * Pow10(15);
    assert Pow10(20) == 10 * Pow10(19);
  }

  lemma Pad20Natural(n: nat)
    requires IsUint64(n)
    ensures |Pad20(n)| == 20 && AllDigits(Pad20(n)) && Value(Pad20(n)) == n
  {
    Pow10Bounds();
    ZeroPadDigits(n, 20);
  }

  lemma Pad20Negative(n: int)
    requires IsInt64(n) && n < 0
    ensures |Pad20(n)| == 20 && Pad20(n)[0] == MINUS
    ensures AllDigits(Pad20(n)[1..]) && Value(Pad20(n)[1..]) == -n
  {
    Pow10Bounds();
    ZeroPadDigits(-n, 19);
    assert Pad20(n)[1..] == ZeroPad(-n, 19);
  }

  predicate Paddable(n: int) { IsUint64(n) || IsInt64(n) }

  lemma Pad20Length(n: int)
    requires Paddable(n)
    ensures |Pad20(n)| == 20
    ensures forall i | 0 <= i < 20 :: Pad20(n)[i] == MINUS || ZERO <= Pad20(n)[i] < ZERO + 10
  {
    if n < 0 {
      Pad20Negative(n);
      assert forall i | 1 <= i < 20 :: Pad20(n)[i] == Pad20(n)[1..][i - 1];
    } else {
      Pad20Natural(n);
    }
  }

  lemma Pad20ParseUint(n: nat)
    requires IsUint64(n)
    ensures ParseUint(Pad20(n)) == Some(n)
  {
    Pad20Natural(n);
  }

  lemma Pad20ParseInt(n: int)
    requires IsInt64(n)
    ensures ParseInt(Pad20(n)) == Some(n)
  {
    hide Pad20, Value;
    if n < 0 { Pad20Negative(n); } else { Pad20Natural(n); }
  }

  lemma Pad20OrderNatural(a: nat, b: nat)
    requires IsUint64(a) && IsUint64(b)
    ensures Less(Pad20(a), Pad20(b)) <==> a < b
  {
    Pad20Natural(a);
    Pad20Natural(b);
    DigitOrder(Pad20(a), Pad20(b));
  }

  lemma Pad20OrderNegative(a: int, b: int)
    requires IsInt64(a) && IsInt64(b) && a < 0 && b < 0
    ensures Less(Pad20(a), Pad20(b)) <==> b < a
  {
    Pad20Negative(a);
    Pad20Negative(b);
    DigitOrder(Pad20(a)[1..], Pad20(b)[1..]);
  }

  lemma Pad20OrderMixed(a: int, b: int)
    requires IsInt64(a) && IsUint64(b) && a < 0
    ensures Less(Pad20(a), Pad20(b)) && !Less(Pad20(b), Pad20(a))
  {
    Pad20Natural(b);
    assert Pad20(a)[0] == MINUS < Pad20(b)[0];
  }

  /** Padded text sorts in numeric order, except that two negative numbers sort the wrong way round. */
  lemma Pad20Order(a: int, b: int)
    requires Paddable(a) && Paddable(b)
    ensures Less(Pad20(a), Pad20(b)) <==> if a < 0 && b < 0 then b < a else a < b
  {
    if a < 0 && b < 0 {
      Pad20OrderNegative(a, b);
    } else if a >= 0 && b >= 0 {
      Pad20OrderNatural(a, b);
    } else if a < 0 {
      Pad20OrderMixed(a, b);
    } else {
      Pad20OrderMixed(b, a);
    }
  }

  lemma Pad20Injective(a: int, b: int)
    requires Paddable(a) && Paddable(b) && Pad20(a) == Pad20(b)
    ensures a == b
  {
    Pad20Order(a, b);
    Pad20Order(b, a);
    LessAsymmetricAll();
  }
}

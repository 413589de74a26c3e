/** Byte strings in the order in which the key-value store iterates over them. */
module ByteOrder {

  type Byte = b: int | 0 <= b < 256
  type Bytes = seq<Byte>

  /** The bytes of a text of ASCII characters. */
  function Ascii(s: string): (r: Bytes)
    requires forall i | 0 <= i < |s| :: s[i] as int < 128
    ensures |r| == |s| && forall i | 0 <= i < |s| :: r[i] == s[i] as int
  {
    seq(|s|, i requires 0 <= i < |s| => s[i] as int)
  }

  /** Strict lexicographic order, as `bytes.Compare(a, b) < 0`. */
  predicate Less(a: Bytes, b: Bytes)
  {
    b != [] && (a == [] || a[0] < b[0] || (a[0] == b[0] && Less(a[1..], b[1..])))
  }

  predicate Sorted(ks: seq<Bytes>)
  {
    forall i, j :: 0 <= i < j < |ks| ==> Less(ks[i], ks[j])
  }

  lemma {:induction false} LessAsymmetric(a: Bytes, b: Bytes)
    requires Less(a, b)
    ensures !Less(b, a) && a != b
  {
    if a == [] || a[0] != b[0] {
    } else {
      LessAsymmetric(a[1..], b[1..]);
    }
  }

  lemma {:induction false} LessTransitive(a: Bytes, b: Bytes, c: Bytes)
    requires Less(a, b) && Less(b, c)
    ensures Less(a, c)
  {
    if a == [] || a[0] != b[0] || b[0] != c[0] {
    } else {
      LessTransitive(a[1..], b[1..], c[1..]);
    }
  }

  lemma {:induction false} LessTotal(a: Bytes, b: Bytes)
    ensures a == b || Less(a, b) || Less(b, a)
  {
    if a == [] || b == [] || a[0] != b[0] {
    } else {
      LessTotal(a[1..], b[1..]);
      assert a == [a[0]] + a[1..] && b == [b[0]] + b[1..];
    }
  }

  lemma LessAsymmetricAll()
    ensures forall a, b :: Less(a, b) ==> !Less(b, a) && a != b
  {
    forall a, b | Less(a, b) ensures !Less(b, a) && a != b {
      LessAsymmetric(a, b);
    }
  }

  /** A common prefix does not take part in the comparison. */
  lemma {:induction false} LessUnderPrefix(p: Bytes, a: Bytes, b: Bytes)
    ensures Less(p + a, p + b) <==> Less(a, b)
  {
    if p == [] {
      assert p + a == a && p + b == b;
    } else {
      LessUnderPrefix(p[1..], a, b);
      assert (p + a)[1..] == p[1..] + a && (p + b)[1..] == p[1..] + b;
    }
  }

  /** For heads of the same length, the tails count only when the heads agree. */
  lemma {:induction false} LessByHeads(x: Bytes, y: Bytes, a: Bytes, b: Bytes)
    requires |x| == |y|
    ensures Less(x + a, y + b) <==> Less(x, y) || (x == y && Less(a, b))
  {
    if x == [] {
      assert x + a == a && y + b == b;
    } else {
      LessByHeads(x[1..], y[1..], a, b);
      assert (x + a)[1..] == x[1..] + a && (y + b)[1..] == y[1..] + b;
      assert x == [x[0]] + x[1..] && y == [y[0]] + y[1..];
    }
  }

  /** Everything between `p` and an extension of `p` starts with `p`. */
  lemma {:induction false} BetweenHasPrefix(p: Bytes, t: Bytes, s: Bytes)
    requires !Less(s, p) && Less(s, p + t)
    ensures p <= s
  {
    if p == [] {
    } else {
      assert (p + t)[1..] == p[1..] + t;
      BetweenHasPrefix(p[1..], t, s[1..]);
      assert p == [p[0]] + p[1..] && s == [s[0]] + s[1..];
    }
  }

  ghost predicate IsLeast(m: Bytes, s: set<Bytes>)
  {
    m in s && forall k | k in s :: k != m ==> Less(m, k)
  }

  lemma {:induction false} LeastExists(s: set<Bytes>)
    requires |s| > 0
    ensures exists m :: IsLeast(m, s)
  {
    var x :| x in s;
    var rest := s - {x};
    if |rest| == 0 {
      assert forall k | k in s :: k != x ==> k in rest;
      assert IsLeast(x, s);
    } else {
      LeastExists(rest);
      var m :| IsLeast(m, rest);
      LeastOfTwo(x, m, rest, s);
    }
  }

  lemma LeastOfTwo(x: Bytes, m: Bytes, rest: set<Bytes>, s: set<Bytes>)
    requires x in s && rest == s - {x} && IsLeast(m, rest)
    ensures IsLeast(x, s) || IsLeast(m, s)
  {
    LessTotal(x, m);
    if Less(x, m) {
      forall k | k in s && k != x ensures Less(x, k) {
        if k != m { LessTransitive(x, m, k); }
      }
    }
  }

  function Least(s: set<Bytes>): (m: Bytes)
    requires |s| > 0
    ensures m in s && forall k | k in s :: k != m ==> Less(m, k)
  {
    LeastExists(s);
    LessAsymmetricAll();
    assert exists m :: IsLeast(m, s) && m in s && forall k | k in s :: k != m ==> Less(m, k);
    var m :| m in s && forall k | k in s :: k != m ==> Less(m, k);
    m
  }

  /** The elements of a set of keys in iteration order. */
  function SortKeys(s: set<Bytes>): (ks: seq<Bytes>)
    ensures Sorted(ks) && |ks| == |s|
    ensures forall k :: k in ks <==> k in s
  {
    if |s| == 0 then [] else
      var m := Least(s);
      var rest := SortKeys(s - {m});
      assert forall i | 0 <= i < |rest| :: rest[i] in s - {m};
      [m] + rest
  }

  /** `ks` is what a snapshot iterator over the keys in `[lo, hi)` yields. */
  ghost predicate IsScan(ks: seq<Bytes>, keys: set<Bytes>, lo: Bytes, hi: Bytes)
  {
    Sorted(ks) && forall k :: k in ks <==> k in keys && !Less(k, lo) && Less(k, hi)
  }

  function Scan(keys: set<Bytes>, lo: Bytes, hi: Bytes): (ks: seq<Bytes>)
    ensures IsScan(ks, keys, lo, hi)
  {
    SortKeys(set k | k in keys && !Less(k, lo) && Less(k, hi))
  }

  /** A sorted listing is determined by its elements. */
  lemma {:induction false} SortedUnique(a: seq<Bytes>, b: seq<Bytes>)
    requires Sorted(a) && Sorted(b)
    requires forall k :: k in a <==> k in b
    ensures a == b
  {
    var head := if a != [] then a[0] else if b != [] then b[0] else [];
    assert head in a <==> head in b;
    if a == [] {
    } else {
      assert b != [] && b[0] in a;
      LessAsymmetricAll();
      assert a[0] == b[0];
      var a', b' := a[1..], b[1..];
      forall k ensures k in a' <==> k in b' {
        assert k in a' ==> k in a && k != a[0];
        assert k in b' ==> k in b && k != b[0];
        assert k in a && k != a[0] ==> k in a' by { assert a == [a[0]] + a'; }
        assert k in b && k != b[0] ==> k in b' by { assert b == [b[0]] + b'; }
      }
      SortedUnique(a', b');
      assert a == [a[0]] + a' && b == [b[0]] + b';
    }
  }
}

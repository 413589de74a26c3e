/** Finite sets of integers listed in ascending order, as an index scan lists them. */
module Ascending {

  /** An integer that a table is indexed by; every int64 and every uint64 is one. */
  type Num = i: int | -0x8000_0000_0000_0000 <= i

  predicate Increasing(s: seq<Num>)
  {
    forall i, j :: 0 <= i < j < |s| ==> s[i] < s[j]
  }

  ghost predicate IsMin(m: Num, s: set<Num>)
  {
    m in s && forall k | k in s :: m <= k
  }

  lemma {:induction false} MinExists(s: set<Num>)
    requires |s| > 0
    ensures exists m :: IsMin(m, s)
  {
    var x :| x in s;
    var rest := s - {x};
    assert forall k | k in s :: k != x ==> k in rest;
    if |rest| == 0 {
      assert IsMin(x, s);
    } else {
      MinExists(rest);
      var m :| IsMin(m, rest);
      assert IsMin(if x < m then x else m, s);
    }
  }

  function Min(s: set<Num>): (m: Num)
    requires |s| > 0
    ensures m in s && forall k | k in s :: m <= k
  {
    MinExists(s);
    assert exists m :: IsMin(m, s) && m in s && forall k | k in s :: m <= k;
    var m :| m in s && forall k | k in s :: m <= k;
    m
  }

  ghost predicate Lists(r: seq<Num>, s: set<Num>)
  {
    && Increasing(r)
    && |r| == |s|
    && (forall i | 0 <= i < |r| :: r[i] in s)
    && (forall k | k in s :: k in r)
  }

  /** The elements of `s` in ascending order. */
  function SortNums(s: set<Num>): (r: seq<Num>)
    ensures Lists(r, s)
  {
    if |s| == 0 then [] else
      var m := Min(s);
      var rest := SortNums(s - {m});
      ListsCons(m, rest, s);
      [m] + rest
  }

  lemma ListsCons(m: Num, rest: seq<Num>, s: set<Num>)
    requires IsMin(m, s) && Lists(rest, s - {m})
    ensures Lists([m] + rest, s)
  {
  }

  /** `SortNums` for specifications. */
  ghost function Asc(s: set<Num>): (r: seq<Num>)
    ensures |r| == |s|
  {
    assert Lists(SortNums(s), s);
    var r :| Lists(r, s);
    r
  }

  lemma ListsTail(a: seq<Num>, s: set<Num>)
    requires Lists(a, s) && a != []
    ensures Lists(a[1..], s - {a[0]})
    ensures a[0] in s && forall k | k in s :: a[0] <= k
  {
  }

  /** An ascending listing is determined by its elements. */
  lemma {:induction false} ListsUnique(a: seq<Num>, b: seq<Num>, s: set<Num>)
    requires Lists(a, s) && Lists(b, s)
    ensures a == b
  {
    if a == [] {
    } else {
      ListsTail(a, s);
      ListsTail(b, s);
      hide Lists;
      ListsUnique(a[1..], b[1..], s - {a[0]});
      assert a == [a[0]] + a[1..] && b == [b[0]] + b[1..];
    }
  }

  lemma AscUnique(a: seq<Num>, s: set<Num>)
    requires Increasing(a)
    requires forall i | 0 <= i < |a| :: a[i] in s
    requires forall k | k in s :: k in a
    ensures a == Asc(s)
  {
    IncreasingLength(a, s);
    ListsUnique(a, Asc(s), s);
  }

  lemma {:induction false} IncreasingLength(a: seq<Num>, s: set<Num>)
    requires Increasing(a)
    requires forall i | 0 <= i < |a| :: a[i] in s
    requires forall k | k in s :: k in a
    ensures |a| == |s|
  {
    if a == [] {
      assert s == {};
    } else {
      var a', s' := a[1..], s - {a[0]};
      assert forall k | k in s' :: k in a && k in a';
      IncreasingLength(a', s');
    }
  }

  lemma AscFind(s: set<Num>, n: Num) returns (i: nat)
    requires n in s
    ensures i < |Asc(s)| && Asc(s)[i] == n
  {
    assert n in Asc(s);
    i :| 0 <= i < |Asc(s)| && Asc(s)[i] == n;
  }

  lemma AscIncreasing(s: set<Num>)
    ensures Increasing(Asc(s))
  {
  }

  lemma AscElements(s: set<Num>)
    ensures forall k :: k in Asc(s) <==> k in s
    ensures forall i | 0 <= i < |Asc(s)| :: Asc(s)[i] in s
  {
  }

  function Elements(s: seq<Num>): set<Num> { set x | x in s }

  /** The part of an ascending listing from position `i` on lists what is left without the first `i`. */
  lemma AscDrop(s: set<Num>, i: nat, left: set<Num>)
    requires i <= |Asc(s)| && left == s - Elements(Asc(s)[..i])
    ensures Asc(left) == Asc(s)[i..]
  {
    var a := Asc(s);
    var rest := a[i..];
    assert a == a[..i] + rest;
    forall j | 0 <= j < |rest| ensures rest[j] in left {
      assert rest[j] == a[i + j];
      assert rest[j] !in a[..i];
    }
    forall k | k in left ensures k in rest {
      assert k in a && k !in a[..i];
    }
    AscUnique(rest, left);
  }

  /** The listing of the elements above the one at position `i` starts right after it. */
  lemma AscAbove(s: set<Num>, i: nat)
    requires i < |Asc(s)|
    ensures Asc(set k | k in s && Asc(s)[i] < k) == Asc(s)[i + 1..]
  {
    var a := Asc(s);
    AscIncreasing(s);
    var hi := set k | k in s && a[i] < k;
    var left := s - Elements(a[..i + 1]);
    forall k | k in s ensures k in hi <==> k in left {
      var j := AscFind(s, k);
      assert j <= i ==> a[..i + 1][j] == k;
    }
    assert hi == left;
    AscDrop(s, i + 1, hi);
  }
}

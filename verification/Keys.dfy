/**
 The flat key space of the message store: key builders, parsers and range bounds.

 `Key` names an entry by its family and its fields; `Encode` is the byte string under which
 the entry is stored.
 */
module Keys {
  import opened ByteOrder
  import opened Decimal
  import opened Options
  import opened Ascending

  const SLASH: Byte := 47
  const MSG: Bytes := [109, 115, 103]
  const DUP: Bytes := [100, 117, 112]
  const SEQ: Bytes := [115, 101, 113]
  const EXP: Bytes := [101, 120, 112]
  const STATE: Bytes := [115, 116, 97, 116, 101]
  const DELIVERED: Bytes := [100, 101, 108, 105, 118, 101, 114, 101, 100]
  const ACKED: Bytes := [97, 99, 107, 101, 100]

  predicate SlashFree(s: Bytes) { SLASH !in s }

  function Part(head: Bytes, rest: Bytes): Bytes { head + [SLASH] + rest }

  function MsgPrefix(r: Bytes): Bytes { MSG + [SLASH] + r + [SLASH] }

  function MsgKey(r: Bytes, n: int): Bytes { MsgPrefix(r) + Pad20(n) }

  function DupKey(r: Bytes, id: Bytes): Bytes { DUP + [SLASH] + r + [SLASH] + id }

  function SeqKey(r: Bytes): Bytes { SEQ + [SLASH] + r }

  function ExpKey(e: int, r: Bytes, n: int): Bytes
  {
    EXP + [SLASH] + Pad20(e) + [SLASH] + r + [SLASH] + Pad20(n)
  }

  function DeliveredKey(r: Bytes): Bytes { STATE + [SLASH] + r + [SLASH] + DELIVERED }

  function AckedKey(r: Bytes): Bytes { STATE + [SLASH] + r + [SLASH] + ACKED }

  function ExpLowerBound(): Bytes { EXP + [SLASH] }

  /** The addition is on int64, so it wraps at the largest time. */
  function ExpUpperBound(now: int): Bytes { EXP + [SLASH] + Pad20(AddInt64(now, 1)) + [SLASH] }

  function PrefixUpperBound(p: Bytes): Bytes { p + [255] }

  /** `strings.Split(s, "/")` */
  function Split(s: Bytes): (parts: seq<Bytes>)
    ensures |parts| >= 1
  {
    if s == [] then [[]] else
      var rest := Split(s[1..]);
      if s[0] == SLASH then [[]] + rest else [[s[0]] + rest[0]] + rest[1..]
  }

  function ParseMsgKey(key: Bytes): Option<(Bytes, nat)>
  {
    var parts := Split(key);
    if |parts| != 3 then None else
      match ParseUint(parts[2])
      case None => None
      case Some(n) => Some((parts[1], n))
  }

  function ParseExpKey(key: Bytes): Option<(int, Bytes, nat)>
  {
    var parts := Split(key);
    if |parts| != 4 then None else
      match ParseInt(parts[1])
      case None => None
      case Some(e) =>
        match ParseUint(parts[3])
        case None => None
        case Some(n) => Some((e, parts[2], n))
  }

  datatype Key =
    | MsgK(r: Bytes, n: Num)
    | DupK(r: Bytes, id: Bytes)
    | SeqK(r: Bytes)
    | ExpK(e: int, r: Bytes, n: Num)
    | DeliveredK(r: Bytes)
    | AckedK(r: Bytes)

  predicate ValidKey(k: Key)
  {
    && SlashFree(k.r)
    && (k.MsgK? ==> IsUint64(k.n))
    && (k.ExpK? ==> IsInt64(k.e) && IsUint64(k.n))
  }

  function Encode(k: Key): Bytes
  {
    match k
    case MsgK(r, n) => MsgKey(r, n)
    case DupK(r, id) => DupKey(r, id)
    case SeqK(r) => SeqKey(r)
    case ExpK(e, r, n) => ExpKey(e, r, n)
    case DeliveredK(r) => DeliveredKey(r)
    case AckedK(r) => AckedKey(r)
  }

  /** The texts that key families are named by. */
  lemma FamilyTexts()
    ensures MSG == Ascii("msg") && DUP == Ascii("dup") && SEQ == Ascii("seq") && EXP == Ascii("exp")
    ensures [SLASH] == Ascii("/")
  {
  }

  lemma StateTexts()
    ensures STATE == Ascii("state") && DELIVERED == Ascii("delivered") && ACKED == Ascii("acked")
  {
  }

  lemma PaddedTexts()
    ensures Pad20(7) == Ascii("00000000000000000007")
    ensures Pad20(-7) == Ascii("-0000000000000000007")
  {
    assert FormatUint(7) == [ZERO + 7];
  }

  /***** Splitting undoes building *****/

  lemma {:induction false} SplitPart(a: Bytes, s: Bytes)
    requires SlashFree(a)
    ensures Split(Part(a, s)) == [a] + Split(s)
  {
    if a == [] {
      assert Part(a, s)[1..] == s;
    } else {
      SplitPart(a[1..], s);
      assert Part(a, s)[1..] == Part(a[1..], s);
      assert [a[0]] + a[1..] == a;
    }
  }

  lemma {:induction false} SplitWhole(a: Bytes)
    requires SlashFree(a)
    ensures Split(a) == [a]
  {
    if a == [] {
    } else {
      SplitWhole(a[1..]);
      assert [a[0]] + a[1..] == a;
    }
  }

  lemma PaddedIsSlashFree(n: int)
    requires Paddable(n)
    ensures SlashFree(Pad20(n))
  {
    Pad20Length(n);
  }

  /** The components of an encoded key. */
  function Parts(k: Key): seq<Bytes>
  {
    match k
    case MsgK(r, n) => [MSG, r, Pad20(n)]
    case DupK(r, id) => [DUP, r] + Split(id)
    case SeqK(r) => [SEQ, r]
    case ExpK(e, r, n) => [EXP, Pad20(e), r, Pad20(n)]
    case DeliveredK(r) => [STATE, r, DELIVERED]
    case AckedK(r) => [STATE, r, ACKED]
  }

  lemma SplitTwo(a: Bytes, r: Bytes, rest: Bytes)
    requires SlashFree(a) && SlashFree(r)
    ensures Split(a + [SLASH] + r + [SLASH] + rest) == [a, r] + Split(rest)
  {
    assert a + [SLASH] + r + [SLASH] + rest == Part(a, Part(r, rest));
    SplitPart(a, Part(r, rest));
    SplitPart(r, rest);
    assert [a] + ([r] + Split(rest)) == [a, r] + Split(rest);
  }

  lemma SplitMsgKey(r: Bytes, n: int)
    requires SlashFree(r) && IsUint64(n)
    ensures Split(MsgKey(r, n)) == [MSG, r, Pad20(n)]
  {
    SplitTwo(MSG, r, Pad20(n));
    PaddedIsSlashFree(n);
    SplitWhole(Pad20(n));
  }

  lemma SplitExpKey(e: int, r: Bytes, n: int)
    requires IsInt64(e) && SlashFree(r) && IsUint64(n)
    ensures Split(ExpKey(e, r, n)) == [EXP, Pad20(e), r, Pad20(n)]
  {
    PaddedIsSlashFree(e);
    PaddedIsSlashFree(n);
    var rest := Part(r, Pad20(n));
    assert ExpKey(e, r, n) == EXP + [SLASH] + Pad20(e) + [SLASH] + rest;
    SplitTwo(EXP, Pad20(e), rest);
    SplitPart(r, Pad20(n));
    SplitWhole(Pad20(n));
  }

  lemma SplitStateKey(r: Bytes, name: Bytes)
    requires SlashFree(r) && SlashFree(name)
    ensures Split(STATE + [SLASH] + r + [SLASH] + name) == [STATE, r, name]
  {
    SplitTwo(STATE, r, name);
    SplitWhole(name);
  }

  lemma SplitSeqKey(r: Bytes)
    requires SlashFree(r)
    ensures Split(SeqKey(r)) == [SEQ, r]
  {
    assert SeqKey(r) == Part(SEQ, r);
    SplitPart(SEQ, r);
    SplitWhole(r);
  }

  lemma SplitEncode(k: Key)
    requires ValidKey(k)
    ensures Split(Encode(k)) == Parts(k)
  {
    match k
    case MsgK(r, n) => SplitMsgKey(r, n);
    case DupK(r, id) => SplitTwo(DUP, r, id);
    case SeqK(r) => SplitSeqKey(r);
    case ExpK(e, r, n) => SplitExpKey(e, r, n);
    case DeliveredK(r) => SplitStateKey(r, DELIVERED);
    case AckedK(r) => SplitStateKey(r, ACKED);
  }

  lemma ParseMsgKeyInverse(r: Bytes, n: int)
    requires SlashFree(r) && IsUint64(n)
    ensures ParseMsgKey(MsgKey(r, n)) == Some((r, n))
  {
    hide Pad20, Split, ParseUint;
    SplitMsgKey(r, n);
    Pad20ParseUint(n);
  }

  lemma ParseExpKeyInverse(e: int, r: Bytes, n: int)
    requires IsInt64(e) && SlashFree(r) && IsUint64(n)
    ensures ParseExpKey(ExpKey(e, r, n)) == Some((e, r, n))
  {
    hide Pad20, Split, ParseUint, ParseInt;
    SplitExpKey(e, r, n);
    Pad20ParseInt(e);
    Pad20ParseUint(n);
  }

  /** Every slash makes one more part. */
  lemma {:induction false} SplitCounts(s: Bytes, t: Bytes)
    ensures |Split(s + [SLASH] + t)| == |Split(s)| + |Split(t)|
  {
    if s == [] {
      assert s + [SLASH] + t == [SLASH] + t && ([SLASH] + t)[1..] == t;
    } else {
      assert (s + [SLASH] + t)[1..] == s[1..] + [SLASH] + t;
      SplitCounts(s[1..], t);
    }
  }

  lemma {:induction false} SlashMakesParts(s: Bytes)
    ensures |Split(s)| == 1 <==> SlashFree(s)
  {
    if s == [] {
    } else {
      SlashMakesParts(s[1..]);
    }
  }

  /** A message key is read back exactly when its recipient id has no slash. */
  lemma ParseNeedsSlashFree(r: Bytes, n: int)
    requires IsUint64(n)
    ensures ParseMsgKey(MsgKey(r, n)) == Some((r, n)) <==> SlashFree(r)
  {
    if SlashFree(r) {
      ParseMsgKeyInverse(r, n);
    } else {
      assert MsgKey(r, n) == MSG + [SLASH] + (r + [SLASH] + Pad20(n));
      SplitCounts(MSG, r + [SLASH] + Pad20(n));
      SplitCounts(r, Pad20(n));
      SlashMakesParts(r);
    }
  }

  /** With slashes in recipient ids, two recipients can share a duplicate key. */
  lemma SlashesCollide(a: Bytes, b: Bytes, c: Bytes)
    ensures DupKey(a + [SLASH] + b, c) == DupKey(a, b + [SLASH] + c)
  {
  }

  /** Two entries never share a key: the families are disjoint and every builder is injective. */
  lemma EncodeInjective(j: Key, k: Key)
    requires ValidKey(j) && ValidKey(k) && Encode(j) == Encode(k)
    ensures j == k
  {
    SplitEncode(j);
    SplitEncode(k);
    assert Parts(j)[0] == Parts(k)[0] && Parts(j)[1] == Parts(k)[1];
    if j.MsgK? {
      assert Parts(j)[2] == Parts(k)[2];
      Pad20Injective(j.n, k.n);
    } else if j.ExpK? {
      assert Parts(j)[2] == Parts(k)[2] && Parts(j)[3] == Parts(k)[3];
      Pad20Injective(j.e, k.e);
      Pad20Injective(j.n, k.n);
    } else if j.DupK? {
      var p := DUP + [SLASH] + j.r + [SLASH];
      assert Encode(j)[|p|..] == j.id && Encode(k)[|p|..] == k.id;
    } else if j.DeliveredK? || j.AckedK? {
      assert Parts(j)[2] == Parts(k)[2];
    }
  }

  /***** Ranges *****/

  /** Within one recipient, message keys iterate in sequence-number order. */
  lemma MsgKeyOrder(r: Bytes, a: int, b: int)
    requires IsUint64(a) && IsUint64(b)
    ensures Less(MsgKey(r, a), MsgKey(r, b)) <==> a < b
  {
    LessUnderPrefix(MsgPrefix(r), Pad20(a), Pad20(b));
    Pad20OrderNatural(a, b);
  }

  lemma MsgPartsOwner(r: Bytes, k: Key, rest: Bytes)
    requires SlashFree(r) && ValidKey(k) && Encode(k) == MSG + [SLASH] + r + [SLASH] + rest
    ensures k.MsgK? && k.r == r
  {
    hide Encode, Split, Pad20;
    SplitTwo(MSG, r, rest);
    SplitEncode(k);
    assert Parts(k)[0] == MSG && Parts(k)[1] == r;
  }

  lemma MsgPrefixOwner(r: Bytes, k: Key)
    requires SlashFree(r) && ValidKey(k)
    ensures MsgPrefix(r) <= Encode(k) <==> k.MsgK? && k.r == r
  {
    if MsgPrefix(r) <= Encode(k) {
      hide Encode;
      MsgPartsOwner(r, k, Encode(k)[|MsgPrefix(r)|..]);
    }
  }

  lemma BelowPrefixUpperBound(p: Bytes, t: Bytes)
    requires t != [] ==> t[0] < 255
    ensures Less(p + t, PrefixUpperBound(p)) && !Less(p + t, p)
  {
    LessUnderPrefix(p, t, [255]);
    LessUnderPrefix(p, t, []);
    assert p + [] == p;
  }

  /** The prefix range of a recipient holds exactly that recipient's message keys. */
  lemma MsgRange(r: Bytes, k: Key)
    requires SlashFree(r) && ValidKey(k)
    ensures !Less(Encode(k), MsgPrefix(r)) && Less(Encode(k), PrefixUpperBound(MsgPrefix(r)))
       <==> k.MsgK? && k.r == r
  {
    if !Less(Encode(k), MsgPrefix(r)) && Less(Encode(k), PrefixUpperBound(MsgPrefix(r))) {
      BetweenHasPrefix(MsgPrefix(r), [255], Encode(k));
      MsgPrefixOwner(r, k);
    }
    if k.MsgK? && k.r == r {
      Pad20Length(k.n);
      BelowPrefixUpperBound(MsgPrefix(r), Pad20(k.n));
    }
  }

  /** Starting at a message key, the range holds exactly the messages from that number on. */
  lemma MsgRangeFrom(r: Bytes, lo: int, k: Key)
    requires SlashFree(r) && IsUint64(lo) && ValidKey(k)
    ensures !Less(Encode(k), MsgKey(r, lo)) && Less(Encode(k), PrefixUpperBound(MsgPrefix(r)))
       <==> k.MsgK? && k.r == r && lo <= k.n
  {
    MsgRange(r, k);
    if !Less(Encode(k), MsgKey(r, lo)) && Less(Encode(k), PrefixUpperBound(MsgPrefix(r))) {
      assert !Less(Encode(k), MsgPrefix(r)) by {
        if Less(Encode(k), MsgPrefix(r)) {
          Pad20Length(lo);
          LessUnderPrefix(MsgPrefix(r), [], Pad20(lo));
          assert MsgPrefix(r) + [] == MsgPrefix(r);
          LessTransitive(Encode(k), MsgPrefix(r), MsgKey(r, lo));
        }
      }
      MsgKeyOrder(r, k.n, lo);
    }
    if k.MsgK? && k.r == r && lo <= k.n {
      MsgKeyOrder(r, k.n, lo);
    }
  }

  lemma ExpPrefixOwner(k: Key)
    requires ValidKey(k)
    ensures ExpLowerBound() <= Encode(k) <==> k.ExpK?
  {
    if ExpLowerBound() <= Encode(k) {
      var rest := Encode(k)[|ExpLowerBound()|..];
      assert Encode(k) == Part(EXP, rest);
      SplitPart(EXP, rest);
      SplitEncode(k);
      assert Parts(k)[0] == EXP;
    }
  }

  lemma LessInside(p: Bytes, x: Bytes, y: Bytes, a: Bytes, b: Bytes)
    requires |x| == |y|
    ensures Less(p + (x + a), p + (y + b)) <==> Less(x, y) || (x == y && Less(a, b))
  {
    LessUnderPrefix(p, x + a, y + b);
    LessByHeads(x, y, a, b);
  }

  /** What follows the expiry time in an expiry key. */
  function ExpTail(r: Bytes, n: int): Bytes { [SLASH] + (r + [SLASH] + Pad20(n)) }

  lemma ExpKeyShape(e: int, r: Bytes, n: int)
    ensures ExpKey(e, r, n) == ExpLowerBound() + (Pad20(e) + ExpTail(r, n))
  {
    hide Pad20;
    var lo, time, tail := ExpLowerBound(), Pad20(e), r + [SLASH] + Pad20(n);
    assert ExpKey(e, r, n) == lo + time + [SLASH] + tail;
    assert lo + time + [SLASH] + tail == lo + (time + ([SLASH] + tail));
  }

  /** What the expiry range for `now` holds, by the order of the padded bound and the padded time. */
  predicate InExpRange(now: int, e: int)
  {
    var bound := AddInt64(now, 1);
    if e < 0 && bound < 0 then bound < e else e < bound
  }

  lemma ExpKeyBelow(e: int, r: Bytes, n: int, now: int)
    requires IsInt64(e)
    ensures Less(ExpKey(e, r, n), ExpUpperBound(now)) <==> InExpRange(now, e)
  {
    var bound := AddInt64(now, 1);
    ExpKeyShape(e, r, n);
    assert ExpUpperBound(now) == ExpLowerBound() + (Pad20(bound) + [SLASH]);
    assert |Pad20(e)| == |Pad20(bound)| by { Pad20Length(e); Pad20Length(bound); }
    LessInside(ExpLowerBound(), Pad20(e), Pad20(bound), ExpTail(r, n), [SLASH]);
    assert !Less(ExpTail(r, n), [SLASH]);
    Pad20Order(e, bound);
  }

  /** The expiry range holds exactly the index entries whose times lie below its bound. */
  lemma ExpRange(now: int, k: Key)
    requires ValidKey(k)
    ensures !Less(Encode(k), ExpLowerBound()) && Less(Encode(k), ExpUpperBound(now))
       <==> k.ExpK? && InExpRange(now, k.e)
  {
    var hi := Pad20(AddInt64(now, 1)) + [SLASH];
    assert ExpUpperBound(now) == ExpLowerBound() + hi;
    ExpPrefixOwner(k);
    if !Less(Encode(k), ExpLowerBound()) && Less(Encode(k), ExpUpperBound(now)) {
      BetweenHasPrefix(ExpLowerBound(), hi, Encode(k));
      ExpKeyBelow(k.e, k.r, k.n, now);
    }
    if k.ExpK? {
      ExpKeyBelow(k.e, k.r, k.n, now);
      var rest := Encode(k)[|ExpLowerBound()|..];
      assert Encode(k) == ExpLowerBound() + rest;
      LessUnderPrefix(ExpLowerBound(), rest, []);
      assert ExpLowerBound() + [] == ExpLowerBound();
    }
  }

  /** A time at which the range is what it is meant to be. */
  predicate Regular(now: int) { -1 <= now < MAX_INT64 }

  /** The range holds exactly the entries that are due if and only if the time is at least -1 and not the largest. */
  lemma ExpRangeIsExact(now: int)
    requires IsInt64(now)
    ensures (forall e | IsInt64(e) :: InExpRange(now, e) <==> e <= now) <==> Regular(now)
  {
    if now == MAX_INT64 {
      assert !InExpRange(now, 0);
    } else if now < -1 {
      assert !InExpRange(now, MIN_INT64);
    }
  }

  /** A range that holds an entry beyond `now` holds none that is due. */
  lemma BeyondMeansNoneDue(now: int, e: int, due: int)
    requires IsInt64(now) && InExpRange(now, e) && now < e && due <= now
    ensures !InExpRange(now, due)
  {
  }

  /** Due entries iterate in expiry order unless two of them expired before the epoch. */
  lemma ExpKeyOrder(a: Key, b: Key)
    requires a.ExpK? && b.ExpK? && ValidKey(a) && ValidKey(b) && a.e != b.e
    ensures Less(Encode(a), Encode(b)) <==> if a.e < 0 && b.e < 0 then b.e < a.e else a.e < b.e
  {
    ExpKeyShape(a.e, a.r, a.n);
    ExpKeyShape(b.e, b.r, b.n);
    assert |Pad20(a.e)| == |Pad20(b.e)| by { Pad20Length(a.e); Pad20Length(b.e); }
    LessInside(ExpLowerBound(), Pad20(a.e), Pad20(b.e), ExpTail(a.r, a.n), ExpTail(b.r, b.n));
    Pad20Order(a.e, b.e);
    if Pad20(a.e) == Pad20(b.e) { Pad20Injective(a.e, b.e); }
  }
}

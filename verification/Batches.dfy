/** What the loops of the storage operations build up: pages, batches and collected references. */
module Batches {
  import opened ByteOrder
  import opened Ascending
  import opened Decimal
  import opened Keys
  import opened Mailboxes
  import opened MailboxLaws
  import opened FlatStore

  /***** Fetch: the records kept from a prefix of a scan *****/

  ghost predicate Stored(b: Mailbox, ns: seq<Num>)
  {
    forall i | 0 <= i < |ns| :: ns[i] in b.msgs
  }

  ghost function Kept(b: Mailbox, ns: seq<Num>, now: int): seq<StoredMessage>
    requires Stored(b, ns)
  {
    if ns == [] then [] else
      var n := Last(ns);
      Kept(b, ns[..|ns| - 1], now) + if now < b.msgs[n].expireAt then [StoredMessage(n, b.msgs[n])] else []
  }

  lemma {:induction false} KeptExact(b: Mailbox, ns: seq<Num>, now: int)
    requires Stored(b, ns) && Increasing(ns)
    ensures InOrder(Kept(b, ns, now))
    ensures forall i | 0 <= i < |Kept(b, ns, now)| ::
              var m := Kept(b, ns, now)[i];
              m.storeSeq in ns && m.storeSeq in b.msgs && m.entry == b.msgs[m.storeSeq] && now < m.entry.expireAt
  {
    if ns == [] {
    } else {
      KeptExact(b, ns[..|ns| - 1], now);
    }
  }

  lemma {:induction false} KeptHolds(b: Mailbox, ns: seq<Num>, now: int, j: nat)
    requires Stored(b, ns) && j < |ns| && now < b.msgs[ns[j]].expireAt
    ensures Holds(Kept(b, ns, now), ns[j])
  {
    var front := ns[..|ns| - 1];
    var before, all := Kept(b, front, now), Kept(b, ns, now);
    if j == |ns| - 1 {
      assert all[|all| - 1].storeSeq == ns[j];
    } else {
      KeptHolds(b, front, now, j);
      var i :| 0 <= i < |before| && before[i].storeSeq == ns[j];
      assert all[i].storeSeq == ns[j];
    }
  }

  function Numbers(items: seq<StoredMessage>): (ns: seq<Num>)
    ensures |ns| == |items| && forall i | 0 <= i < |items| :: ns[i] == items[i].storeSeq
  {
    seq(|items|, i requires 0 <= i < |items| => items[i].storeSeq)
  }

  lemma FromIsStored(b: Mailbox, lo: Num)
    ensures Stored(b, Asc(From(b, lo))) && Increasing(Asc(From(b, lo)))
    ensures forall n :: n in Asc(From(b, lo)) <==> n in b.msgs && lo <= n
  {
  }

  /** What is kept from a whole scan is the listing of the unexpired messages. */
  lemma KeptIsListing(b: Mailbox, lo: Num, now: int)
    ensures Stored(b, Asc(From(b, lo)))
    ensures Kept(b, Asc(From(b, lo)), now) == Listing(b, lo, now)
  {
    var ns := Asc(From(b, lo));
    FromIsStored(b, lo);
    var items := Kept(b, ns, now);
    KeptExact(b, ns, now);
    hide Kept, Asc;
    forall n | n in Unexpired(b, lo, now) ensures n in Numbers(items) {
      assert n in ns;
      var j :| 0 <= j < |ns| && ns[j] == n;
      KeptHolds(b, ns, now, j);
      var i :| 0 <= i < |items| && items[i].storeSeq == n;
      assert Numbers(items)[i] == n;
    }
    AscUnique(Numbers(items), Unexpired(b, lo, now));
  }

  lemma {:induction false} KeptPrefix(b: Mailbox, ns: seq<Num>, now: int, i: nat)
    requires Stored(b, ns) && i <= |ns|
    ensures Kept(b, ns[..i], now) <= Kept(b, ns, now)
    decreases |ns|
  {
    if i < |ns| {
      KeptPrefix(b, ns[..|ns| - 1], now, i);
      assert ns[..|ns| - 1][..i] == ns[..i];
    } else {
      assert ns[..i] == ns;
    }
  }

  lemma KeptStep(b: Mailbox, ns: seq<Num>, now: int, i: nat)
    requires Stored(b, ns) && i < |ns|
    ensures Kept(b, ns[..i + 1], now)
         == Kept(b, ns[..i], now) + if now < b.msgs[ns[i]].expireAt then [StoredMessage(ns[i], b.msgs[ns[i]])] else []
  {
    assert ns[..i + 1][..i] == ns[..i];
  }

  lemma KeptNone(b: Mailbox, ns: seq<Num>, now: int)
    ensures Kept(b, ns[..0], now) == []
  {
  }

  /** Stopping at the first record beyond a full page gives the page. */
  lemma PageComplete(b: Mailbox, after: Num, limit: int, now: int, i: nat)
    requires limit > 0
    requires var ns := Asc(From(b, NextSeq(after)));
             && Stored(b, ns) && i <= |ns| && |Kept(b, ns[..i], now)| <= limit
             && (i < |ns| ==> |Kept(b, ns[..i], now)| == limit && now < b.msgs[ns[i]].expireAt)
    ensures var ns := Asc(From(b, NextSeq(after)));
            Page(Kept(b, ns[..i], now), i < |ns|) == Fetch(b, after, limit, now)
  {
    var ns := Asc(From(b, NextSeq(after)));
    KeptIsListing(b, NextSeq(after), now);
    hide Kept, Listing, Asc;
    KeptPrefix(b, ns, now, i);
    if i < |ns| {
      KeptStep(b, ns, now, i);
      KeptPrefix(b, ns, now, i + 1);
    } else {
      assert ns[..i] == ns;
    }
  }

  /***** Mark delivered: following a scan while it is contiguous *****/

  ghost predicate Contiguous(ns: seq<Num>, lo: Num, i: nat)
  {
    i <= |ns| && forall j | 0 <= j < i :: ns[j] == lo + j
  }

  /** The number after a contiguous stretch can only be the next one in the scan. */
  lemma NextInScan(b: Mailbox, lo: Num, i: nat)
    requires Contiguous(Asc(From(b, lo)), lo, i)
    ensures var ns := Asc(From(b, lo)); lo + i in b.msgs ==> i < |ns| && ns[i] == lo + i
  {
    var next: Num := lo + i;
    if next in b.msgs {
      var ns := Asc(From(b, lo));
      AscIncreasing(From(b, lo));
      AscElements(From(b, lo));
      var j := AscFind(From(b, lo), next);
      hide Asc;
      assert forall x | 0 <= x < i :: ns[x] < next;
      assert i < |ns| ==> ns[i] >= next by {
        assert i > 0 && i < |ns| ==> ns[i - 1] < ns[i];
      }
    }
  }

  /** The uint64 that a counter reaches when it passes the largest one. */
  function Wrapped(n: int): int
  {
    if n > MAX_UINT64 then 0 else n
  }

  /** A record with the expected number continues the stretch, and without one the stretch has ended. */
  lemma StretchGoesOn(db: Db, w: World, r: Bytes, lo: Num, i: nat)
    requires Agree(db, w) && IsUint64(lo) && Contiguous(Asc(From(Box(w, r), lo)), lo, i)
    ensures var ns := Asc(From(Box(w, r), lo));
            if i < |ns| && ns[i] == Wrapped(lo + i) then ns[i] == lo + i && Contiguous(ns, lo, i + 1)
            else lo + i !in Box(w, r).msgs
  {
    BoxWellFormed(db, w, r);
    hide Agree;
    var b := Box(w, r);
    var ns := Asc(From(b, lo));
    FromIsStored(b, lo);
    NextInScan(b, lo, i);
    assert i > 0 && i < |ns| ==> ns[i - 1] < ns[i];
  }

  lemma AdvanceStops(b: Mailbox, now: int, items: set<Num>, f: Num)
    requires !Passable(b, now, items, f + 1)
    ensures Advance(b, now, items, f) == f
  {
  }

  lemma AdvanceSteps(b: Mailbox, now: int, items: set<Num>, f: Num)
    requires Passable(b, now, items, f + 1)
    ensures Advance(b, now, items, f) == Advance(b, now, items, f + 1)
  {
  }

  /***** Usage: adding up the rest of a scan *****/

  lemma RestBytes(b: Mailbox, ns: seq<Num>, i: nat, size: Sizer)
    requires Stored(b, ns) && Increasing(ns) && i < |ns|
    ensures TotalBytes(b.msgs - Elements(ns[..i]), size)
         == TotalBytes(b.msgs - Elements(ns[..i + 1]), size) + size(StoredMessage(ns[i], b.msgs[ns[i]]))
  {
    hide TotalBytes;
    var rest := b.msgs - Elements(ns[..i]);
    assert ns[i] in rest;
    TotalBytesRemove(rest, ns[i], size);
    assert ns[..i + 1] == ns[..i] + [ns[i]];
    assert rest - {ns[i]} == b.msgs - Elements(ns[..i + 1]);
  }

  lemma RestIsEverything(b: Mailbox, ns: seq<Num>)
    ensures b.msgs - Elements(ns[..0]) == b.msgs
  {
  }

  lemma RestIsNothing(b: Mailbox, i: nat, size: Sizer)
    requires i == |Asc(b.msgs.Keys)|
    ensures TotalBytes(b.msgs - Elements(Asc(b.msgs.Keys)[..i]), size) == 0
  {
  }

  /** A scan of a whole message prefix. */
  lemma WholeScan(db: Db, w: World, r: Bytes, keys: seq<Bytes>)
    requires Agree(db, w) && SlashFree(r)
    requires IsScan(keys, db.Keys, MsgPrefix(r), PrefixUpperBound(MsgPrefix(r)))
    ensures var ns := Asc(Box(w, r).msgs.Keys);
            keys == MsgKeys(r, ns) && Stored(Box(w, r), ns) && Increasing(ns)
  {
    var b := Box(w, r);
    BoxWellFormed(db, w, r);
    assert From(b, 0) == b.msgs.Keys;
    hide Agree, WellFormed, IsScan, MsgPrefix;
    MsgScan(db, w, r, MsgPrefix(r), 0, keys);
    FromIsStored(b, 0);
  }

  /***** Acknowledge: deleting the first messages of a scan *****/

  /** The three keys of a message, deleted together. */
  function EraseKeys(db: Db, r: Bytes, n: Num, e: Entry): Db
  {
    db - {MsgKey(r, n)} - {DupKey(r, e.envelope.msgId)} - {ExpKey(e.expireAt, r, n)}
  }

  function Drop(b: Mailbox, n: Num, e: Entry): Mailbox
  {
    b.(msgs := b.msgs - {n}, dup := b.dup - {e.envelope.msgId}, exp := b.exp - {ExpEntry(e.expireAt, n)})
  }

  lemma EraseKeysAgrees(db: Db, w: World, r: Bytes, n: Num, e: Entry)
    requires Agree(db, w) && SlashFree(r) && IsUint64(n) && IsInt64(e.expireAt)
    ensures Agree(EraseKeys(db, r, n, e), w[r := Drop(Box(w, r), n, e)])
  {
    hide Agree, MsgKey, DupKey, ExpKey;
    var b := Box(w, r);
    var w1 := w[r := b.(msgs := b.msgs - {n})];
    var w2 := w1[r := Box(w1, r).(dup := b.dup - {e.envelope.msgId})];
    EraseMsg(db, w, r, n);
    EraseDup(db - {MsgKey(r, n)}, w1, r, e.envelope.msgId);
    EraseExp(db - {MsgKey(r, n)} - {DupKey(r, e.envelope.msgId)}, w2, r, e.expireAt, n);
    assert w2[r := Box(w2, r).(exp := b.exp - {ExpEntry(e.expireAt, n)})] == w[r := Drop(b, n, e)];
  }

  lemma RemoveStep(b: Mailbox, ns: seq<Num>, i: nat)
    requires i < |ns| && ns[i] in b.msgs
    ensures Drop(Remove(b, Elements(ns[..i])), ns[i], b.msgs[ns[i]]) == Remove(b, Elements(ns[..i + 1]))
  {
  }

  lemma RemoveNone(b: Mailbox)
    ensures Remove(b, Elements([])) == b
  {
  }

  /** Deleting from the front of a scan until `ackSeq` is passed or the batch is full deletes the victims. */
  lemma BatchIsVictims(b: Mailbox, ackSeq: Num, k: nat, i: nat)
    requires var ns := Asc(b.msgs.Keys);
             && i <= |ns| && i <= k
             && (forall j | 0 <= j < i :: ns[j] <= ackSeq)
             && (i == k || i == |ns| || ackSeq < ns[i])
    ensures Asc(b.msgs.Keys)[..i] == Victims(b, ackSeq, k)
  {
    hide Asc, Due;
    DueIsPrefix(b, ackSeq, |Due(b, ackSeq)|);
  }

  /** A batch that is interrupted before its record `i` has passed `i` of its checks. */
  lemma CutBatch(b: Mailbox, ackSeq: Num, k: nat, i: nat)
    requires var ns := Asc(b.msgs.Keys); i < |ns| && i < k && forall j | 0 <= j < i :: ns[j] <= ackSeq
    ensures i < BatchChecks(b, ackSeq, k) && i <= |Victims(b, ackSeq, k)|
    ensures i > 0 ==> Victims(b, ackSeq, k)[i - 1] == Asc(b.msgs.Keys)[i - 1]
  {
    hide Asc, Due;
    DueIsPrefix(b, ackSeq, |Due(b, ackSeq)|);
  }

  lemma DueIsPrefix(b: Mailbox, ackSeq: Num, p: nat)
    requires p == |Due(b, ackSeq)|
    ensures p <= |Asc(b.msgs.Keys)| && Asc(Due(b, ackSeq)) == Asc(b.msgs.Keys)[..p]
    ensures p < |Asc(b.msgs.Keys)| ==> ackSeq < Asc(b.msgs.Keys)[p]
    ensures forall j | 0 <= j < p :: Asc(b.msgs.Keys)[j] <= ackSeq
  {
    var ns := Asc(b.msgs.Keys);
    AscElements(b.msgs.Keys);
    AscIncreasing(b.msgs.Keys);
    hide Asc;
    var q := CountUpTo(ns, ackSeq);
    forall n | n in Due(b, ackSeq) ensures n in ns[..q] {
      assert n in ns;
      var j :| 0 <= j < |ns| && ns[j] == n;
      assert ns[..q][j] == n;
    }
    AscUnique(ns[..q], Due(b, ackSeq));
  }

  lemma {:induction false} CountUpTo(ns: seq<Num>, cut: Num) returns (q: nat)
    requires Increasing(ns)
    ensures q <= |ns|
    ensures forall j | 0 <= j < q :: ns[j] <= cut
    ensures forall j | q <= j < |ns| :: cut < ns[j]
  {
    q := 0;
    while q < |ns| && ns[q] <= cut
      invariant q <= |ns| && forall j | 0 <= j < q :: ns[j] <= cut
    {
      q := q + 1;
    }
  }

  /***** Collect *****/

  ghost function CollectIn(w: World, ref: Ref): World
  {
    w[ref.r := Collect(Box(w, ref.r), ref.expireAt, ref.storeSeq)]
  }

  ghost function CollectAll(w: World, refs: seq<Ref>): World
  {
    if refs == [] then w else CollectIn(CollectAll(w, refs[..|refs| - 1]), refs[|refs| - 1])
  }

  /**
   `refs` are the first `limit` due entries in key order: they are due and in order, and every
   other due entry comes after a full list.
   */
  ghost predicate FirstDue(w: World, now: int, limit: int, refs: seq<Ref>)
  {
    && |refs| <= limit
    && (forall i | 0 <= i < |refs| :: IsDue(w, now, refs[i]))
    && (forall i, j | 0 <= i < j < |refs| :: Less(RefKey(refs[i]), RefKey(refs[j])))
    && (forall ref | IsDue(w, now, ref) :: ref in refs || (|refs| == limit && After(refs, ref)))
  }

  ghost predicate After(refs: seq<Ref>, ref: Ref)
  {
    forall i | 0 <= i < |refs| :: Less(RefKey(refs[i]), RefKey(ref))
  }

  /** The references read from the first keys of an expiry scan. */
  ghost predicate RefsOf(refs: seq<Ref>, keys: seq<Bytes>, w: World, now: int)
  {
    |refs| <= |keys| && forall i | 0 <= i < |refs| :: RefKey(refs[i]) == keys[i] && IsDue(w, now, refs[i])
  }

  lemma RefKeyInjective(db: Db, w: World, now: int, a: Ref, b: Ref)
    requires Agree(db, w) && IsDue(w, now, a) && IsDue(w, now, b) && RefKey(a) == RefKey(b)
    ensures a == b
  {
    hide Agree, IsDue, ExpKey, ExpLowerBound, ExpUpperBound, Less;
    DueIsScanned(db, w, now, a);
    DueIsScanned(db, w, now, b);
    EncodeInjective(ExpK(a.expireAt, a.r, a.storeSeq), ExpK(b.expireAt, b.r, b.storeSeq));
  }

  lemma ScanIsFirstDue(db: Db, w: World, now: int, limit: int, keys: seq<Bytes>, refs: seq<Ref>)
    requires Agree(db, w)
    requires IsScan(keys, db.Keys, ExpLowerBound(), ExpUpperBound(now))
    requires RefsOf(refs, keys, w, now) && |refs| <= limit
    requires |refs| == limit || |refs| == |keys| || forall e: int :: !Collectable(now, e)
    ensures FirstDue(w, now, limit, refs)
  {
    hide Agree, ExpLowerBound, ExpUpperBound, RefKey, Less;
    forall ref | IsDue(w, now, ref) ensures ref in refs || (|refs| == limit && After(refs, ref)) {
      DueIsScanned(db, w, now, ref);
      assert RefKey(ref) in keys;
      var j :| 0 <= j < |keys| && keys[j] == RefKey(ref);
      if j < |refs| {
        RefKeyInjective(db, w, now, refs[j], ref);
      }
    }
  }

  /***** The context checks of a collection pass *****/

  /** The scan meets an entry that is not due; it then meets no due one and stops at its first entry. */
  ghost predicate StopsAtOnce(w: World, now: int)
  {
    exists ref :: Indexed(w, ref) && InExpRange(now, ref.expireAt) && now < ref.expireAt
  }

  lemma StopsMeansNoneDue(w: World, now: int)
    requires IsInt64(now) && StopsAtOnce(w, now)
    ensures forall e: int :: !Collectable(now, e)
  {
    var ref :| Indexed(w, ref) && InExpRange(now, ref.expireAt) && now < ref.expireAt;
    forall e: int ensures !Collectable(now, e) {
      if e <= now { BeyondMeansNoneDue(now, ref.expireAt, e); }
    }
  }

  /** A scan that finds `due` checks its context once for each of them, or once if it stops at its first entry. */
  ghost function ScanChecks(w: World, now: int, due: seq<Ref>): nat
  {
    if due == [] && StopsAtOnce(w, now) then 1 else |due|
  }

  /** A pass checks its context while scanning, and once more before it deletes each reference. */
  ghost function PassChecks(w: World, now: int, due: seq<Ref>): nat
  {
    ScanChecks(w, now, due) + |due|
  }

  /** How many references a pass deletes before its context ends. */
  ghost function PassDeletes(w: World, now: int, due: seq<Ref>, budget: nat): (n: nat)
    ensures n <= |due|
    ensures PassChecks(w, now, due) <= budget ==> n == |due|
  {
    if budget < ScanChecks(w, now, due) then 0
    else if budget < PassChecks(w, now, due) then budget - ScanChecks(w, now, due)
    else |due|
  }

  lemma PassChecksBound(w: World, now: int, limit: int, due: seq<Ref>)
    requires limit >= 1 && |due| <= limit
    ensures PassChecks(w, now, due) <= 2 * limit
  {
  }

  /** If nothing stops the scan, its first keys are those of due entries. */
  lemma {:induction false} RefsOfScan(db: Db, w: World, now: int, keys: seq<Bytes>, n: nat) returns (due: seq<Ref>)
    requires Agree(db, w) && !StopsAtOnce(w, now) && n <= |keys|
    requires IsScan(keys, db.Keys, ExpLowerBound(), ExpUpperBound(now))
    ensures |due| == n && RefsOf(due, keys, w, now)
    decreases n
  {
    hide Agree, ExpLowerBound, ExpUpperBound, RefKey, Less, InExpRange, ParseExpKey;
    if n == 0 {
      due := [];
    } else {
      due := RefsOfScan(db, w, now, keys, n - 1);
      assert keys[n - 1] in keys;
      ExpScanHolds(db, w, now, keys[n - 1]);
      var ref :| Indexed(w, ref) && InExpRange(now, ref.expireAt) && RefKey(ref) == keys[n - 1];
      due := due + [ref];
    }
  }

  lemma RefsUnique(db: Db, w: World, now: int, keys: seq<Bytes>, a: seq<Ref>, b: seq<Ref>)
    requires Agree(db, w) && RefsOf(a, keys, w, now) && RefsOf(b, keys, w, now) && |a| == |b|
    ensures a == b
  {
    hide Agree, RefKey;
    forall i | 0 <= i < |a| ensures a[i] == b[i] {
      RefKeyInjective(db, w, now, a[i], b[i]);
    }
  }

  /** The due entries that a scan finds, from the keys it will visit. */
  lemma DueOfScan(db: Db, w: World, now: int, limit: nat, keys: seq<Bytes>) returns (due: seq<Ref>)
    requires Agree(db, w) && IsInt64(now) && limit >= 1
    requires IsScan(keys, db.Keys, ExpLowerBound(), ExpUpperBound(now))
    ensures FirstDue(w, now, limit, due)
    ensures StopsAtOnce(w, now) ==> due == [] && keys != [] && forall e: int :: !Collectable(now, e)
    ensures !StopsAtOnce(w, now) ==>
              RefsOf(due, keys, w, now) && |due| == if limit <= |keys| then limit else |keys|
  {
    hide Agree, ExpLowerBound, ExpUpperBound, RefKey, Less, InExpRange, FirstDue;
    if StopsAtOnce(w, now) {
      due := [];
      StopsMeansNoneDue(w, now);
      StopIsScanned(db, w, now, keys);
    } else {
      due := RefsOfScan(db, w, now, keys, if limit <= |keys| then limit else |keys|);
    }
    ScanIsFirstDue(db, w, now, limit, keys, due);
  }

  lemma StopIsScanned(db: Db, w: World, now: int, keys: seq<Bytes>)
    requires Agree(db, w) && StopsAtOnce(w, now)
    requires IsScan(keys, db.Keys, ExpLowerBound(), ExpUpperBound(now))
    ensures keys != []
  {
    var ref :| Indexed(w, ref) && InExpRange(now, ref.expireAt) && now < ref.expireAt;
    IndexedIsScanned(db, w, now, ref);
    assert RefKey(ref) in keys;
  }

  lemma TouchAgrees(db: Db, w: World, r: Bytes)
    requires Agree(db, w) && SlashFree(r)
    ensures Agree(db, w[r := Box(w, r)])
  {
  }
}

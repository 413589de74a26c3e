/** Operations run one after the other: what they report adds up, and collection drains. */
module Ledger {
  import opened ByteOrder
  import opened Options
  import opened Ascending
  import opened Decimal
  import opened Mailboxes
  import opened MailboxLaws
  import opened FlatStore
  import opened Batches

  ghost predicate WorldConsistent(w: World)
  {
    forall r | r in w :: Consistent(w[r])
  }

  lemma BoxConsistent(w: World, r: Bytes)
    requires WorldConsistent(w)
    ensures Consistent(Box(w, r))
  {
  }

  /***** Sums over all recipients *****/

  ghost function Sum(w: World, f: Mailbox -> int): int
    decreases |w.Keys|
  {
    if w.Keys == {} then 0 else
      var r :| r in w.Keys;
      f(w[r]) + Sum(w - {r}, f)
  }

  lemma {:induction false} SumRemove(w: World, r: Bytes, f: Mailbox -> int)
    requires r in w
    ensures Sum(w, f) == f(w[r]) + Sum(w - {r}, f)
    decreases |w.Keys|
  {
    var q :| q in w.Keys && Sum(w, f) == f(w[q]) + Sum(w - {q}, f);
    if q == r {
    } else {
      RemoveInAnyOrder(w, q, r);
      SumRemove(w - {q}, r, f);
      SumRemove(w - {r}, q, f);
    }
  }

  lemma RemoveInAnyOrder(w: World, q: Bytes, r: Bytes)
    requires q in w && r in w
    ensures w - {q} - {r} == w - {r} - {q}
    ensures |(w - {q}).Keys| < |w.Keys| && |(w - {r}).Keys| < |w.Keys|
  {
  }

  lemma SumUpdate(w: World, r: Bytes, b: Mailbox, f: Mailbox -> int)
    requires f(EMPTY) == 0
    ensures Sum(w[r := b], f) == Sum(w, f) - f(Box(w, r)) + f(b)
  {
    hide Sum;
    SumRemove(w[r := b], r, f);
    assert w[r := b] - {r} == w - {r};
    if r in w {
      SumRemove(w, r, f);
    } else {
      assert w - {r} == w;
    }
  }

  ghost function Live(w: World): int { Sum(w, (b: Mailbox) => |b.msgs|) }

  ghost function Assigned(w: World): int { Sum(w, (b: Mailbox) => b.last) }

  lemma LiveUpdate(w: World, r: Bytes, b: Mailbox)
    ensures Live(w[r := b]) == Live(w) - |Box(w, r).msgs| + |b.msgs|
  {
    SumUpdate(w, r, b, (b: Mailbox) => |b.msgs|);
  }

  lemma AssignedUpdate(w: World, r: Bytes, b: Mailbox)
    ensures Assigned(w[r := b]) == Assigned(w) - Box(w, r).last + b.last
  {
    SumUpdate(w, r, b, (b: Mailbox) => b.last);
  }

  /***** Collection without interference *****/

  function Gone(refs: seq<Ref>, r: Bytes): set<Num>
  {
    set i | 0 <= i < |refs| && refs[i].r == r :: refs[i].storeSeq
  }

  ghost predicate AllDue(w: World, now: int, refs: seq<Ref>)
  {
    forall i | 0 <= i < |refs| :: IsDue(w, now, refs[i])
  }

  lemma GoneAppend(refs: seq<Ref>, r: Bytes)
    requires refs != []
    ensures var last := refs[|refs| - 1];
            Gone(refs, r) == Gone(refs[..|refs| - 1], r) + if last.r == r then {last.storeSeq} else {}
  {
  }

  /** Collecting due references removes exactly the messages they name, from all three families. */
  lemma {:induction false} CollectAllExact(w: World, now: int, refs: seq<Ref>, r: Bytes)
    requires WorldConsistent(w) && AllDue(w, now, refs)
    ensures WorldConsistent(CollectAll(w, refs))
    ensures Box(CollectAll(w, refs), r) == Remove(Box(w, r), Gone(refs, r))
  {
    hide Consistent, Collect, Remove, Gone;
    if refs == [] {
      assert Gone(refs, r) == {} by { NothingGone(r); }
      RemoveNone(Box(w, r));
      assert Elements([]) == {};
    } else {
      var front, last := refs[..|refs| - 1], refs[|refs| - 1];
      var w1 := CollectAll(w, front);
      CollectAllExact(w, now, front, r);
      CollectAllExact(w, now, front, last.r);
      BoxConsistent(w1, last.r);
      CollectDue(w, now, front, last);
      GoneAppend(refs, r);
      if last.r == r {
        RemoveRemove(Box(w, r), Gone(front, r), {last.storeSeq});
      } else {
        assert Gone(front, r) + {} == Gone(front, r);
      }
    }
  }

  lemma NothingGone(r: Bytes)
    ensures Gone([], r) == {}
  {
  }

  lemma CollectDue(w: World, now: int, front: seq<Ref>, last: Ref)
    requires WorldConsistent(w) && IsDue(w, now, last)
    requires var b := Box(CollectAll(w, front), last.r);
             Consistent(b) && b == Remove(Box(w, last.r), Gone(front, last.r))
    ensures var b := Box(CollectAll(w, front), last.r);
            var b' := Collect(b, last.expireAt, last.storeSeq);
            && b' == Remove(b, {last.storeSeq}) && Consistent(b')
            && |b'.msgs| == |b.msgs| - if last.storeSeq in Gone(front, last.r) then 0 else 1
  {
    hide CollectAll;
    var b := Box(CollectAll(w, front), last.r);
    assert ExpEntry(last.expireAt, last.storeSeq) in Box(w, last.r).exp;
    CollectKeeps(b, last.expireAt, last.storeSeq);
    assert Collect(b, last.expireAt, last.storeSeq).msgs.Keys == b.msgs.Keys - {last.storeSeq};
  }

  ghost predicate Distinct(refs: seq<Ref>)
  {
    forall i, j | 0 <= i < j < |refs| :: refs[i] != refs[j]
  }

  lemma FirstDueDistinct(w: World, now: int, limit: int, refs: seq<Ref>)
    requires FirstDue(w, now, limit, refs)
    ensures Distinct(refs) && AllDue(w, now, refs)
  {
    LessAsymmetricAll();
  }

  /** Every collected reference takes one message away. */
  lemma {:induction false} CollectAllCounts(w: World, now: int, refs: seq<Ref>)
    requires WorldConsistent(w) && AllDue(w, now, refs) && Distinct(refs)
    ensures Live(CollectAll(w, refs)) == Live(w) - |refs|
    ensures Assigned(CollectAll(w, refs)) == Assigned(w)
  {
    hide Consistent, Collect, Remove, Gone, Live, Assigned;
    if refs == [] {
    } else {
      var front, last := refs[..|refs| - 1], refs[|refs| - 1];
      var w1 := CollectAll(w, front);
      CollectAllCounts(w, now, front);
      CollectAllExact(w, now, front, last.r);
      BoxConsistent(w1, last.r);
      CollectDue(w, now, front, last);
      NotGone(w, now, front, last);
      var b' := Collect(Box(w1, last.r), last.expireAt, last.storeSeq);
      assert b'.last == Box(w1, last.r).last by { RemoveKeepsCounters(Box(w1, last.r), {last.storeSeq}); }
      LiveUpdate(w1, last.r, b');
      AssignedUpdate(w1, last.r, b');
    }
  }

  lemma RemoveKeepsCounters(b: Mailbox, ns: set<Num>)
    ensures Remove(b, ns).last == b.last
  {
  }

  lemma NotGone(w: World, now: int, front: seq<Ref>, last: Ref)
    requires WorldConsistent(w) && AllDue(w, now, front) && IsDue(w, now, last)
    requires forall i | 0 <= i < |front| :: front[i] != last
    ensures last.storeSeq !in Gone(front, last.r)
  {
  }

  /** No stored message has an expiry time that a scan at `now` collects. */
  ghost predicate Drained(w: World, now: int)
  {
    forall r, n | r in w && n in w[r].msgs :: !Collectable(now, w[r].msgs[n].expireAt)
  }

  /** No stored message has expired at `now`. */
  ghost predicate NothingExpired(w: World, now: int)
  {
    forall r, n | r in w && n in w[r].msgs :: now < w[r].msgs[n].expireAt
  }

  /** At a regular time, what a scan leaves has not expired. */
  lemma DrainedMeansUnexpired(w: World, now: int)
    requires IsInt64(now) && WorldWellFormed(w) && Keys.Regular(now)
    ensures Drained(w, now) <==> NothingExpired(w, now)
  {
    Keys.ExpRangeIsExact(now);
    forall r, n | r in w && n in w[r].msgs
      ensures Collectable(now, w[r].msgs[n].expireAt) <==> w[r].msgs[n].expireAt <= now
    {
      assert WellFormed(w[r]);
    }
  }

  /** A pass that collects fewer references than it may leaves nothing that its scan would collect. */
  lemma ShortPassDrains(w: World, now: int, limit: int, refs: seq<Ref>)
    requires WorldConsistent(w) && FirstDue(w, now, limit, refs) && |refs| < limit
    ensures Drained(CollectAll(w, refs), now)
  {
    FirstDueDistinct(w, now, limit, refs);
    var w' := CollectAll(w, refs);
    forall r, n | r in w' && n in w'[r].msgs ensures !Collectable(now, w'[r].msgs[n].expireAt) {
      CollectAllExact(w, now, refs, r);
      hide CollectAll, Gone;
      var b := Box(w, r);
      assert n in b.msgs && n !in Gone(refs, r) && w'[r].msgs[n] == b.msgs[n];
      if Collectable(now, b.msgs[n].expireAt) {
        DueIsGone(w, now, limit, refs, r, n);
      }
    }
  }

  lemma DueIsGone(w: World, now: int, limit: int, refs: seq<Ref>, r: Bytes, n: Num)
    requires WorldConsistent(w) && FirstDue(w, now, limit, refs) && |refs| < limit
    requires n in Box(w, r).msgs && Collectable(now, Box(w, r).msgs[n].expireAt)
    ensures n in Gone(refs, r)
  {
    BoxConsistent(w, r);
    var ref := Ref(Box(w, r).msgs[n].expireAt, r, n);
    assert IsDue(w, now, ref);
    assert ref in refs;
    var i :| 0 <= i < |refs| && refs[i] == ref;
    assert refs[i].r == r && refs[i].storeSeq == n;
  }

  /***** Sequential runs *****/

  /**
   One operation. An acknowledgement may be cut short by its context after `budget` checks, and a
   pass after `deleted` of the references that it found.
   */
  datatype Op =
    | DoStore(env: Envelope, now: int, quota: Option<Quota>)
    | DoMark(r: Bytes, items: seq<StoredMessage>, now: int)
    | DoAck(r: Bytes, ackSeq: Num, budget: nat)
    | DoCollect(now: int, limit: int, refs: seq<Ref>, deleted: nat)

  /**
   The mailboxes, the totals that acknowledgements and collection passes have reported, and how
   much of what acknowledgements reported was in batches that were dropped.
   */
  datatype Books = Books(w: World, acked: int, collected: int, dropped: int)

  const EMPTY_BOOKS := Books(map[], 0, 0, 0)

  ghost predicate Permitted(w: World, op: Op)
  {
    match op
    case DoStore(env, _, _) => env.msgId != [] && Box(w, env.recipientId).last < MAX_UINT64
    case DoMark(_, _, _) => true
    case DoAck(_, _, _) => true
    case DoCollect(now, limit, refs, deleted) => deleted <= |refs| && (refs != [] ==> FirstDue(w, now, limit, refs))
  }

  /** The reported deletions of a batch that was not committed. */
  function Dropped(outcome: AckOutcome, k: nat): nat
    requires k >= 1
  {
    if outcome.Cancelled? then outcome.count % k else 0
  }

  ghost function Perform(s: Books, op: Op, k: nat, size: Sizer): Books
    requires k >= 1
  {
    match op
    case DoStore(env, now, quota) =>
      var r := env.recipientId;
      s.(w := s.w[r := Store(Box(s.w, r), env, now, quota, size).0])
    case DoMark(r, items, now) =>
      s.(w := s.w[r := Mark(Box(s.w, r), items, now)])
    case DoAck(r, ackSeq, budget) =>
      var (b, outcome) := AckUnder(Box(s.w, r), ackSeq, k, budget);
      s.(w := s.w[r := b], acked := s.acked + Reported(outcome), dropped := s.dropped + Dropped(outcome, k))
    case DoCollect(now, limit, refs, deleted) =>
      if deleted <= |refs| then s.(w := CollectAll(s.w, refs[..deleted]), collected := s.collected + deleted) else s
  }

  ghost predicate PermittedAll(s: Books, ops: seq<Op>, k: nat, size: Sizer)
    requires k >= 1
    decreases |ops|
  {
    ops == [] || (Permitted(s.w, ops[0]) && PermittedAll(Perform(s, ops[0], k, size), ops[1..], k, size))
  }

  ghost function PerformAll(s: Books, ops: seq<Op>, k: nat, size: Sizer): Books
    requires k >= 1
    decreases |ops|
  {
    if ops == [] then s else PerformAll(Perform(s, ops[0], k, size), ops[1..], k, size)
  }

  ghost predicate Balanced(s: Books)
  {
    WorldConsistent(s.w) && Assigned(s.w) == Live(s.w) + s.acked - s.dropped + s.collected
  }

  lemma StoreBalances(s: Books, op: Op, k: nat, size: Sizer)
    requires op.DoStore? && k >= 1 && Balanced(s) && Permitted(s.w, op)
    ensures Balanced(Perform(s, op, k, size))
  {
    hide Assigned, Live, Consistent;
    var r := op.env.recipientId;
    var b := Box(s.w, r);
    BoxConsistent(s.w, r);
    StoreKeeps(b, op.env, op.now, op.quota, size);
    StoreCounts(b, op.env, op.now, op.quota, size);
    hide Store;
    var b' := Store(b, op.env, op.now, op.quota, size).0;
    LiveUpdate(s.w, r, b');
    AssignedUpdate(s.w, r, b');
  }

  lemma StoreCounts(b: Mailbox, env: Envelope, now: int, quota: Option<Quota>, size: Sizer)
    requires Consistent(b) && b.last < MAX_UINT64
    ensures var b' := Store(b, env, now, quota, size).0; b'.last - b.last == |b'.msgs| - |b.msgs|
  {
    hide Store, Correspondence, Named;
    RejectedStoreAssignsNothing(b, env, now, quota, size);
    var (b', reply) := Store(b, env, now, quota, size);
    if reply.Stored? {
      assert b'.msgs.Keys == b.msgs.Keys + {b'.last} && b'.last !in b.msgs;
    }
  }

  lemma AckBalances(s: Books, op: Op, k: nat, size: Sizer)
    requires op.DoAck? && k >= 1 && Balanced(s)
    ensures Balanced(Perform(s, op, k, size))
  {
    hide Assigned, Live, Consistent, AckUnder, Dropped;
    var b := Box(s.w, op.r);
    BoxConsistent(s.w, op.r);
    AckUnderKeeps(b, op.ackSeq, k, op.budget);
    AckCounts(b, op.ackSeq, k, op.budget);
    var b' := AckUnder(b, op.ackSeq, k, op.budget).0;
    LiveUpdate(s.w, op.r, b');
    AssignedUpdate(s.w, op.r, b');
  }

  /** What an acknowledgement reports, less what it dropped, is what it deleted. */
  lemma AckCounts(b: Mailbox, ackSeq: Num, k: nat, budget: nat)
    requires Consistent(b) && k >= 1
    ensures var (b', outcome) := AckUnder(b, ackSeq, k, budget);
            |b'.msgs| == |b.msgs| - Reported(outcome) + Dropped(outcome, k)
  {
    hide Consistent, AckUnder, Committed;
    if AckUnder(b, ackSeq, k, budget).1.Cancelled? {
      CutAckCount(b, ackSeq, k, budget);
      CommittedIsMultiple(AckUnder(b, ackSeq, k, budget).1.count, k);
    } else {
      AckUnderCompletes(b, ackSeq, k, budget);
      CompleteAckCounts(b, ackSeq, k);
    }
  }

  lemma CollectBalances(s: Books, op: Op, k: nat, size: Sizer)
    requires op.DoCollect? && k >= 1 && Balanced(s) && Permitted(s.w, op)
    ensures Balanced(Perform(s, op, k, size))
  {
    hide Assigned, Live, Consistent, CollectAll, FirstDue;
    PassKeeps(s.w, op.now, op.limit, op.refs, op.deleted);
  }

  lemma RefsDue(w: World, now: int, limit: int, refs: seq<Ref>, deleted: nat)
    requires deleted <= |refs| && (refs != [] ==> FirstDue(w, now, limit, refs))
    ensures AllDue(w, now, refs[..deleted]) && Distinct(refs[..deleted])
  {
    if refs != [] { FirstDueDistinct(w, now, limit, refs); }
  }

  /** One pass, complete or cut short, removes `deleted` messages that had expired. */
  lemma PassKeeps(w: World, now: int, limit: int, refs: seq<Ref>, deleted: nat)
    requires WorldConsistent(w) && deleted <= |refs| && (refs != [] ==> FirstDue(w, now, limit, refs))
    ensures var w' := CollectAll(w, refs[..deleted]);
            && WorldConsistent(w') && Live(w') == Live(w) - deleted && Assigned(w') == Assigned(w)
  {
    hide CollectAll, Live, Assigned, FirstDue, Consistent;
    RefsDue(w, now, limit, refs, deleted);
    CollectAllExact(w, now, refs[..deleted], []);
    CollectAllCounts(w, now, refs[..deleted]);
  }

  lemma MarkBalances(s: Books, op: Op, k: nat, size: Sizer)
    requires op.DoMark? && k >= 1 && Balanced(s)
    ensures Balanced(Perform(s, op, k, size))
  {
    hide Assigned, Live;
    var b := Box(s.w, op.r);
    BoxConsistent(s.w, op.r);
    MarkKeeps(b, op.items, op.now);
    LiveUpdate(s.w, op.r, Mark(b, op.items, op.now));
    AssignedUpdate(s.w, op.r, Mark(b, op.items, op.now));
  }

  lemma OpBalances(s: Books, op: Op, k: nat, size: Sizer)
    requires k >= 1 && Balanced(s) && Permitted(s.w, op)
    ensures Balanced(Perform(s, op, k, size))
  {
    hide Balanced, Perform, Permitted;
    match op
    case DoStore(_, _, _) => StoreBalances(s, op, k, size);
    case DoMark(_, _, _) => MarkBalances(s, op, k, size);
    case DoAck(_, _, _) => AckBalances(s, op, k, size);
    case DoCollect(_, _, _, _) => CollectBalances(s, op, k, size);
  }

  lemma {:induction false} RunsBalance(s: Books, ops: seq<Op>, k: nat, size: Sizer)
    requires k >= 1 && Balanced(s) && PermittedAll(s, ops, k, size)
    ensures Balanced(PerformAll(s, ops, k, size))
    decreases |ops|
  {
    hide Balanced, Perform, Permitted;
    if ops == [] {
    } else {
      OpBalances(s, ops[0], k, size);
      RunsBalance(Perform(s, ops[0], k, size), ops[1..], k, size);
    }
  }

  lemma NewBooksBalance()
    ensures Balanced(EMPTY_BOOKS)
  {
  }

  /**
   Conservation: over any sequential run, with acknowledgements and passes cut short at any point,
   the numbers assigned to all recipients equal the live messages plus everything that was reported
   deleted, except for what acknowledgements reported of batches they dropped.
   */
  lemma Conservation(ops: seq<Op>, k: nat, size: Sizer)
    requires k >= 1 && PermittedAll(EMPTY_BOOKS, ops, k, size)
    ensures var s := PerformAll(EMPTY_BOOKS, ops, k, size);
            Assigned(s.w) == Live(s.w) + s.acked - s.dropped + s.collected
  {
    hide Perform, Permitted, Live, Assigned, WorldConsistent, PerformAll, PermittedAll;
    NewBooksBalance();
    RunsBalance(EMPTY_BOOKS, ops, k, size);
  }

  /** Operation `i` of a run is an acknowledgement whose context ends inside a batch. */
  ghost predicate CutInsideBatchAt(s: Books, ops: seq<Op>, i: nat, k: nat, size: Sizer)
    requires k >= 1 && i < |ops|
  {
    && ops[i].DoAck?
    && CutInsideBatch(Box(PerformAll(s, ops[..i], k, size).w, ops[i].r), ops[i].ackSeq, k, ops[i].budget)
  }

  ghost predicate NeverCutInsideBatch(s: Books, ops: seq<Op>, k: nat, size: Sizer)
    requires k >= 1
  {
    forall i: nat | i < |ops| :: !CutInsideBatchAt(s, ops, i, k, size)
  }

  lemma NeverCutFirst(s: Books, ops: seq<Op>, k: nat, size: Sizer)
    requires k >= 1 && ops != []
    ensures NeverCutInsideBatch(s, ops, k, size)
       <==> && !CutInsideBatchAt(s, ops, 0, k, size)
            && NeverCutInsideBatch(Perform(s, ops[0], k, size), ops[1..], k, size)
  {
    hide Perform;
    var s' := Perform(s, ops[0], k, size);
    forall i: nat | i < |ops| - 1
      ensures CutInsideBatchAt(s, ops, i + 1, k, size) <==> CutInsideBatchAt(s', ops[1..], i, k, size)
    {
      assert ops[..i + 1][1..] == ops[1..][..i];
    }
    if NeverCutInsideBatch(s, ops, k, size) {
      forall i: nat | i < |ops[1..]| ensures !CutInsideBatchAt(s', ops[1..], i, k, size) {
        assert !CutInsideBatchAt(s, ops, i + 1, k, size);
      }
    }
    if !CutInsideBatchAt(s, ops, 0, k, size) && NeverCutInsideBatch(s', ops[1..], k, size) {
      forall i: nat | i < |ops| ensures !CutInsideBatchAt(s, ops, i, k, size) {
        if i > 0 { assert !CutInsideBatchAt(s', ops[1..], i - 1, k, size); }
      }
    }
  }

  lemma DroppedIff(b: Mailbox, ackSeq: Num, k: nat, budget: nat)
    requires Consistent(b) && k >= 1
    ensures Dropped(AckUnder(b, ackSeq, k, budget).1, k) > 0 <==> CutInsideBatch(b, ackSeq, k, budget)
  {
    hide Consistent, AckUnder, Dropped, CutInsideBatch;
    AckCounts(b, ackSeq, k, budget);
    AckMisreportsIff(b, ackSeq, k, budget);
  }

  lemma DroppedByStep(s: Books, op: Op, k: nat, size: Sizer)
    requires k >= 1 && WorldConsistent(s.w)
    ensures Perform(s, op, k, size).dropped >= s.dropped
    ensures Perform(s, op, k, size).dropped > s.dropped
       <==> op.DoAck? && CutInsideBatch(Box(s.w, op.r), op.ackSeq, k, op.budget)
  {
    hide AckUnder, Store, Mark, CollectAll, Consistent, CutInsideBatch, Dropped;
    if op.DoAck? {
      BoxConsistent(s.w, op.r);
      DroppedIff(Box(s.w, op.r), op.ackSeq, k, op.budget);
    }
  }

  lemma {:induction false} DroppedAddsUp(s: Books, ops: seq<Op>, k: nat, size: Sizer)
    requires k >= 1 && Balanced(s) && PermittedAll(s, ops, k, size)
    ensures PerformAll(s, ops, k, size).dropped >= s.dropped
    ensures PerformAll(s, ops, k, size).dropped == s.dropped <==> NeverCutInsideBatch(s, ops, k, size)
    decreases |ops|
  {
    hide Perform, Permitted, CutInsideBatch, NeverCutInsideBatch, WorldConsistent, Assigned, Live;
    if ops == [] {
      NothingCut(s, k, size);
    } else {
      OpBalances(s, ops[0], k, size);
      DroppedByStep(s, ops[0], k, size);
      DroppedAddsUp(Perform(s, ops[0], k, size), ops[1..], k, size);
      NeverCutFirst(s, ops, k, size);
      assert PerformAll(s, ops[..0], k, size) == s;
    }
  }

  lemma NothingCut(s: Books, k: nat, size: Sizer)
    requires k >= 1
    ensures NeverCutInsideBatch(s, [], k, size)
  {
  }

  /**
   The reported totals of a run add up exactly when no acknowledgement, in the state it runs in,
   has a context that ends inside a batch.
   */
  lemma ReportsAddUpIff(ops: seq<Op>, k: nat, size: Sizer)
    requires k >= 1 && PermittedAll(EMPTY_BOOKS, ops, k, size)
    ensures var s := PerformAll(EMPTY_BOOKS, ops, k, size);
            Assigned(s.w) == Live(s.w) + s.acked + s.collected
            <==> NeverCutInsideBatch(EMPTY_BOOKS, ops, k, size)
  {
    hide Perform, Permitted, Live, Assigned, PerformAll, PermittedAll, NeverCutInsideBatch, Balanced;
    NewBooksBalance();
    Conservation(ops, k, size);
    DroppedAddsUp(EMPTY_BOOKS, ops, k, size);
  }
}

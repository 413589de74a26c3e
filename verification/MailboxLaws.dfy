/** What the storage operations guarantee about one recipient's mailbox. */
module MailboxLaws {
  import opened ByteOrder
  import opened Options
  import opened Ascending
  import opened Decimal
  import opened Mailboxes

  /***** The invariant *****/

  /** The msg, dup and exp families describe the same messages. */
  ghost predicate Correspondence(b: Mailbox)
  {
    && (forall n | n in b.msgs :: b.msgs[n].envelope.msgId in b.dup && b.dup[b.msgs[n].envelope.msgId] == n)
    && (forall id | id in b.dup :: b.dup[id] in b.msgs && b.msgs[b.dup[id]].envelope.msgId == id)
    && (forall n | n in b.msgs :: ExpEntry(b.msgs[n].expireAt, n) in b.exp)
    && (forall p | p in b.exp :: p.storeSeq in b.msgs && b.msgs[p.storeSeq].expireAt == p.expireAt)
  }

  ghost predicate Named(b: Mailbox)
  {
    forall n | n in b.msgs :: b.msgs[n].envelope.msgId != []
  }

  ghost predicate FrontierChain(b: Mailbox)
  {
    && 0 <= b.acked <= b.delivered <= b.last <= MAX_UINT64
    && (forall n | n in b.msgs :: b.acked < n <= b.last)
  }

  ghost predicate Consistent(b: Mailbox)
  {
    Correspondence(b) && Named(b) && FrontierChain(b)
  }

  ghost predicate FrontiersGrow(b: Mailbox, b': Mailbox)
  {
    b.last <= b'.last && b.delivered <= b'.delivered && b.acked <= b'.acked
  }

  lemma DistinctIds(b: Mailbox, m: Num, n: Num)
    requires Correspondence(b) && m in b.msgs && n in b.msgs
    requires b.msgs[m].envelope.msgId == b.msgs[n].envelope.msgId
    ensures m == n
  {
  }

  /***** Store *****/

  lemma InsertKeeps(b: Mailbox, m: StoredMessage)
    requires Consistent(b) && m.storeSeq == b.last + 1 <= MAX_UINT64
    requires m.entry.envelope.msgId != [] && m.entry.envelope.msgId !in b.dup
    ensures Consistent(Insert(b, m)) && FrontiersGrow(b, Insert(b, m))
  {
    var b' := Insert(b, m);
    assert Correspondence(b') by {
      assert m.storeSeq !in b.msgs;
      assert forall id | id in b'.dup :: id in b.dup || id == m.entry.envelope.msgId;
    }
  }

  lemma StoreKeeps(b: Mailbox, env: Envelope, now: int, quota: Option<Quota>, size: Sizer)
    requires Consistent(b) && env.msgId != [] && b.last < MAX_UINT64
    ensures var b' := Store(b, env, now, quota, size).0; Consistent(b') && FrontiersGrow(b, b')
  {
    if !IsDuplicate(b, env.msgId) {
      assert env.msgId !in b.dup;
      assert b.dup - {env.msgId} == b.dup;
      InsertKeeps(b, StoredMessage(NextSeq(b.last), NewEntry(env, now)));
    }
  }

  /** Numbers run out: a stored message keeps the mailbox consistent exactly below the largest uint64. */
  lemma StoreWraps(b: Mailbox, env: Envelope, now: int, quota: Option<Quota>, size: Sizer)
    requires Consistent(b) && env.msgId != [] && Store(b, env, now, quota, size).1.Stored?
    ensures Consistent(Store(b, env, now, quota, size).0) <==> b.last < MAX_UINT64
  {
    if b.last < MAX_UINT64 {
      StoreKeeps(b, env, now, quota, size);
    } else {
      assert 0 in Store(b, env, now, quota, size).0.msgs;
    }
  }

  /** An id that is still live is answered with the original number and expiry, whatever the quota. */
  lemma StoreDeduplicates(b: Mailbox, n: Num, env: Envelope, now: int, quota: Option<Quota>, size: Sizer)
    requires Consistent(b) && n in b.msgs && b.msgs[n].envelope.msgId == env.msgId
    ensures Store(b, env, now, quota, size) == (b, Duplicate(n, b.msgs[n].expireAt))
  {
  }

  /** In a consistent mailbox every dup entry leads to a live message, so none is stale. */
  lemma NoStaleDuplicate(b: Mailbox, id: Bytes)
    requires Consistent(b)
    ensures id in b.dup <==> IsDuplicate(b, id)
    ensures IsDuplicate(b, id) <==> exists n :: n in b.msgs && b.msgs[n].envelope.msgId == id
  {
  }

  /** A store that is not admitted uses up no sequence number and leaves every message in place. */
  lemma RejectedStoreAssignsNothing(b: Mailbox, env: Envelope, now: int, quota: Option<Quota>, size: Sizer)
    requires Consistent(b)
    ensures var (b', reply) := Store(b, env, now, quota, size);
            if reply.Stored?
            then reply.storeSeq == b'.last == NextSeq(b.last) && b'.msgs == b.msgs[b'.last := NewEntry(env, now)]
            else b' == b
  {
  }

  /** The int64 that a sum of two int64 values wraps to. */
  function Wrap64(t: int): int
  {
    if t > MAX_INT64 then t - 0x1_0000_0000_0000_0000 else if t < MIN_INT64 then t + 0x1_0000_0000_0000_0000 else t
  }

  /** When a message that is stored at `now` expires: after its time to live, or at once if it has none. */
  function ExpiryOf(env: Envelope, now: int): int
  {
    Wrap64(now + if env.ttlSec.Some? then env.ttlSec.value else 0)
  }

  predicate TimesFit(env: Envelope, now: int)
  {
    IsInt64(now) && (env.ttlSec.Some? ==> IsInt64(env.ttlSec.value))
  }

  lemma EntryExact(env: Envelope, now: int)
    requires TimesFit(env, now)
    ensures NewEntry(env, now) == Entry(now, ExpiryOf(env, now), env)
  {
  }

  /** An accepted message is stored as it came, received now, and expires after its time to live. */
  lemma StoredExactly(b: Mailbox, env: Envelope, now: int, quota: Option<Quota>, size: Sizer)
    requires Consistent(b) && TimesFit(env, now) && Store(b, env, now, quota, size).1.Stored?
    ensures var (b', reply) := Store(b, env, now, quota, size);
            var n := if b.last == MAX_UINT64 then 0 else b.last + 1;
            && reply == StoreReply.Stored(n, ExpiryOf(env, now))
            && b'.msgs == b.msgs[n := Entry(now, ExpiryOf(env, now), env)]
            && b'.last == n && b'.delivered == b.delivered && b'.acked == b.acked
  {
    hide TotalBytes, NewEntry, ExpiryOf, Correspondence, Named;
    EntryExact(env, now);
  }

  ghost predicate IsLive(b: Mailbox, id: Bytes)
  {
    exists n :: n in b.msgs && b.msgs[n].envelope.msgId == id
  }

  lemma AdmitReplies(b: Mailbox, m: StoredMessage, quota: Option<Quota>, size: Sizer)
    ensures var reply := Admit(b, m, quota, size);
            var full := quota.Some? && 0 < quota.value.maxMessages <= |b.msgs|;
            var large := quota.Some? && 0 < quota.value.maxBytes < TotalBytes(b.msgs, size) + size(m);
            && (reply == QuotaExceeded <==> full)
            && (reply == BytesExceeded <==> !full && large)
            && (reply.Stored? <==> !full && !large)
            && !reply.Duplicate?
  {
    hide TotalBytes;
  }

  /** Which answer a store gives. Limits that are not positive do not count, and messages are counted before bytes. */
  lemma StoreReplies(b: Mailbox, env: Envelope, now: int, quota: Option<Quota>, size: Sizer)
    requires Consistent(b) && TimesFit(env, now)
    ensures var reply := Store(b, env, now, quota, size).1;
            var live := IsLive(b, env.msgId);
            var n := if b.last == MAX_UINT64 then 0 else b.last + 1;
            var m := StoredMessage(n, Entry(now, ExpiryOf(env, now), env));
            var full := quota.Some? && 0 < quota.value.maxMessages <= |b.msgs|;
            var large := quota.Some? && 0 < quota.value.maxBytes < TotalBytes(b.msgs, size) + size(m);
            && (reply.Duplicate? <==> live)
            && (reply == QuotaExceeded <==> !live && full)
            && (reply == BytesExceeded <==> !live && !full && large)
            && (reply.Stored? <==> !live && !full && !large)
  {
    hide Consistent, Admit, TotalBytes, NewEntry, ExpiryOf, Insert;
    NoStaleDuplicate(b, env.msgId);
    EntryExact(env, now);
    var n := if b.last == MAX_UINT64 then 0 else b.last + 1;
    var clean := b.(dup := b.dup - {env.msgId});
    AdmitReplies(clean, StoredMessage(n, Entry(now, ExpiryOf(env, now), env)), quota, size);
  }

  /***** Quota *****/

  ghost predicate WithinQuota(b: Mailbox, quota: Quota, size: Sizer)
  {
    && (quota.maxMessages > 0 ==> |b.msgs| <= quota.maxMessages)
    && (quota.maxBytes > 0 ==> TotalBytes(b.msgs, size) <= quota.maxBytes)
  }

  lemma {:induction false} TotalBytesRemove(m: map<Num, Entry>, k: Num, size: Sizer)
    requires k in m
    ensures TotalBytes(m, size) == TotalBytes(m - {k}, size) + size(StoredMessage(k, m[k]))
    decreases |m.Keys|
  {
    var p :| p in m.Keys && TotalBytes(m, size) == size(StoredMessage(p, m[p])) + TotalBytes(m - {p}, size);
    if p == k {
    } else {
      RemoveInAnyOrder(m, p, k);
      TotalBytesRemove(m - {p}, k, size);
      TotalBytesRemove(m - {k}, p, size);
    }
  }

  lemma RemoveInAnyOrder(m: map<Num, Entry>, p: Num, k: Num)
    requires p in m && k in m
    ensures m - {p} - {k} == m - {k} - {p}
    ensures |(m - {p}).Keys| < |m.Keys| && |(m - {k}).Keys| < |m.Keys|
  {
  }

  lemma TotalBytesRemoveAny(m: map<Num, Entry>, k: Num, size: Sizer)
    ensures TotalBytes(m - {k}, size) <= TotalBytes(m, size) && |m - {k}| <= |m|
  {
    assert (m - {k}).Keys == m.Keys - {k};
    if k in m {
      TotalBytesRemove(m, k, size);
    } else {
      assert m - {k} == m;
    }
  }

  lemma {:induction false} TotalBytesShrinks(m: map<Num, Entry>, ns: set<Num>, size: Sizer)
    ensures TotalBytes(m - ns, size) <= TotalBytes(m, size) && |m - ns| <= |m|
    decreases ns
  {
    if ns == {} {
      assert m - ns == m;
    } else {
      var k :| k in ns;
      TotalBytesRemoveAny(m, k, size);
      TotalBytesShrinks(m - {k}, ns - {k}, size);
      MinusMinus(m, k, ns);
    }
  }

  lemma MinusMinus(m: map<Num, Entry>, k: Num, ns: set<Num>)
    requires k in ns
    ensures (m - {k}) - (ns - {k}) == m - ns
  {
  }

  lemma InsertBytes(m: map<Num, Entry>, n: Num, e: Entry, size: Sizer)
    requires n !in m
    ensures TotalBytes(m[n := e], size) == TotalBytes(m, size) + size(StoredMessage(n, e))
    ensures |m[n := e]| == |m| + 1
  {
    assert m[n := e].Keys == m.Keys + {n};
    TotalBytesRemove(m[n := e], n, size);
    assert m[n := e] - {n} == m;
  }

  lemma NoMessagesNoBytes(size: Sizer)
    ensures TotalBytes(map[], size) == 0
  {
  }

  lemma StoreWithinQuota(b: Mailbox, env: Envelope, now: int, quota: Quota, size: Sizer)
    requires Consistent(b) && b.last < MAX_UINT64 && WithinQuota(b, quota, size)
    ensures WithinQuota(Store(b, env, now, Some(quota), size).0, quota, size)
  {
    if !IsDuplicate(b, env.msgId) {
      var clean := b.(dup := b.dup - {env.msgId});
      var m := StoredMessage(NextSeq(b.last), NewEntry(env, now));
      assert m.storeSeq !in b.msgs;
      InsertBytes(b.msgs, m.storeSeq, m.entry, size);
    }
  }

  /***** Mark delivered *****/

  ghost predicate PassableUpTo(b: Mailbox, now: int, items: set<Num>, f: Num, g: Num)
  {
    forall n | f < n <= g :: Passable(b, now, items, n)
  }

  /** The frontier moves to the end of the longest run of messages that are expired or handed over. */
  lemma {:induction false} AdvanceIsLargest(b: Mailbox, now: int, items: set<Num>, f: Num)
    ensures PassableUpTo(b, now, items, f, Advance(b, now, items, f))
    ensures !Passable(b, now, items, Advance(b, now, items, f) + 1)
    decreases Above(b, f)
  {
    if !Passable(b, now, items, f + 1) {
    } else {
      assert f + 1 in Above(b, f) && f + 1 !in Above(b, f + 1);
      AdvanceIsLargest(b, now, items, f + 1);
    }
  }

  lemma {:induction false} AdvanceReaches(b: Mailbox, now: int, items: set<Num>, f: Num, g: Num)
    requires f <= g && PassableUpTo(b, now, items, f, g)
    ensures g <= Advance(b, now, items, f)
    decreases g - f
  {
    if f == g {
    } else {
      assert Passable(b, now, items, f + 1);
      AdvanceReaches(b, now, items, f + 1, g);
    }
  }

  /** Every message number is one that a store assigns before the numbers wrap. */
  ghost predicate Numbered(b: Mailbox)
  {
    IsUint64(b.delivered) && forall n | n in b.msgs :: 1 <= n <= MAX_UINT64
  }

  lemma NewFrontierAdvances(b: Mailbox, now: int, items: set<Num>)
    requires Numbered(b)
    ensures NewFrontier(b, now, items, b.delivered) == Advance(b, now, items, b.delivered)
  {
  }

  lemma MarkIsLargest(b: Mailbox, items: seq<StoredMessage>, now: int, g: Num)
    requires Numbered(b) && items != [] && b.delivered <= g
    ensures var b' := Mark(b, items, now);
            && b' == b.(delivered := b'.delivered)
            && (PassableUpTo(b, now, Seqs(items), b.delivered, g) <==> g <= b'.delivered)
  {
    NewFrontierAdvances(b, now, Seqs(items));
    AdvanceIsLargest(b, now, Seqs(items), b.delivered);
    if PassableUpTo(b, now, Seqs(items), b.delivered, g) {
      AdvanceReaches(b, now, Seqs(items), b.delivered, g);
    }
  }

  /**
   The same in the source's terms: the frontier reaches `g` exactly when every number up to it is
   stored and has expired or is among the items. An empty list changes nothing.
   */
  lemma MarkReaches(b: Mailbox, items: seq<StoredMessage>, now: int, g: Num)
    requires Numbered(b) && b.delivered <= g
    ensures items == [] ==> Mark(b, items, now) == b
    ensures items != [] ==>
              var b' := Mark(b, items, now);
              && b' == b.(delivered := b'.delivered)
              && (g <= b'.delivered
                  <==> forall n: Num | b.delivered < n <= g ::
                         n in b.msgs && (b.msgs[n].expireAt <= now || Holds(items, n)))
  {
    if items == [] {
    } else {
      MarkIsLargest(b, items, now, g);
      forall n ensures n in Seqs(items) <==> Holds(items, n) {
      }
      hide Mark;
      assert forall n: Num :: Passable(b, now, Seqs(items), n) <==>
                                n in b.msgs && (b.msgs[n].expireAt <= now || Holds(items, n));
    }
  }

  lemma MarkKeeps(b: Mailbox, items: seq<StoredMessage>, now: int)
    requires Consistent(b)
    ensures var b' := Mark(b, items, now); Consistent(b') && FrontiersGrow(b, b')
  {
    if items != [] {
      var f := Advance(b, now, Seqs(items), b.delivered);
      NewFrontierAdvances(b, now, Seqs(items));
      AdvanceIsLargest(b, now, Seqs(items), b.delivered);
      if b.delivered < f {
        assert Passable(b, now, Seqs(items), f);
      }
    }
  }

  /** A gap just above the frontier stops it for good: marking cannot move it. */
  lemma MarkStuck(b: Mailbox, items: seq<StoredMessage>, now: int)
    requires NextSeq(b.delivered) !in b.msgs
    ensures Mark(b, items, now) == b
  {
  }

  /***** Acknowledge *****/

  lemma RemoveKeeps(b: Mailbox, ns: set<Num>)
    requires Correspondence(b)
    ensures Correspondence(Remove(b, ns))
  {
  }

  /** Deleting the first batch leaves the listing from there on. */
  lemma RestAfterBatch(b: Mailbox, ackSeq: Num, k: nat, start: Num)
    requires Victims(b, ackSeq, k) != []
    ensures var b' := AckBatch(b, ackSeq, k, start);
            Asc(Due(b', ackSeq)) == Asc(Due(b, ackSeq))[|Victims(b, ackSeq, k)|..]
  {
    var vs := Victims(b, ackSeq, k);
    AckBatchShrinks(b, ackSeq, k, start);
    assert vs == Asc(Due(b, ackSeq))[..|vs|];
    AscDrop(Due(b, ackSeq), |vs|, Due(AckBatch(b, ackSeq, k, start), ackSeq));
  }

  /** Every message that a batch leaves is above the ones it deletes. */
  lemma BatchIsLowest(b: Mailbox, ackSeq: Num, k: nat, n: Num)
    requires Victims(b, ackSeq, k) != [] && n in b.msgs
    ensures n in Victims(b, ackSeq, k) || Last(Victims(b, ackSeq, k)) < n
  {
    var vs, all := Victims(b, ackSeq, k), Asc(Due(b, ackSeq));
    if n <= ackSeq {
      var j := AscFind(Due(b, ackSeq), n);
      AscIncreasing(Due(b, ackSeq));
      if j < |vs| {
        assert vs[j] == n;
      } else {
        assert all[|vs| - 1] < all[j];
      }
    }
  }

  lemma NoVictims(b: Mailbox, ackSeq: Num, k: nat)
    requires Victims(b, ackSeq, k) == [] && k >= 1
    ensures Asc(Due(b, ackSeq)) == [] && Due(b, ackSeq) == {}
    ensures forall n | n in b.msgs :: ackSeq < n
  {
    assert |Due(b, ackSeq)| == 0;
    assert Due(b, ackSeq) == {};
    assert forall n | n in b.msgs :: n <= ackSeq ==> n in Due(b, ackSeq);
  }

  lemma AckBatchKeeps(b: Mailbox, ackSeq: Num, k: nat, start: Num)
    requires Consistent(b) && start <= b.acked <= ackSeq <= b.delivered && k >= 1
    ensures var b' := AckBatch(b, ackSeq, k, start);
            && Consistent(b') && FrontiersGrow(b, b')
            && b'.acked <= ackSeq && b'.delivered == b.delivered && b'.last == b.last
  {
    var vs := Victims(b, ackSeq, k);
    if vs == [] {
      NoVictims(b, ackSeq, k);
    } else {
      RemoveKeeps(b, Elements(vs));
      assert b.acked < Last(vs) <= ackSeq;
      forall n | n in b.msgs && n !in Elements(vs) ensures Last(vs) < n {
        BatchIsLowest(b, ackSeq, k, n);
      }
    }
  }

  lemma RemoveRemove(b: Mailbox, ns: set<Num>, ms: set<Num>)
    ensures Remove(Remove(b, ns), ms) == Remove(b, ns + ms)
  {
  }

  /** `n` messages fill whole batches of `k`. */
  predicate FullBatches(n: nat, k: nat)
    requires k >= 1
  {
    n == 0 || (n >= k && FullBatches(n - k, k))
  }

  lemma {:induction false} FullBatchesMeansMultiple(n: nat, k: nat)
    requires k >= 1
    ensures FullBatches(n, k) <==> n % k == 0
    decreases n
  {
    if n >= k {
      FullBatchesMeansMultiple(n - k, k);
      ModShift(n, k);
    } else if n > 0 {
      assert n % k == n;
    }
  }

  lemma ModShift(n: nat, k: nat)
    requires n >= k >= 1
    ensures n % k == (n - k) % k
  {
    DivModUnique(n, k, (n - k) / k + 1, (n - k) % k);
  }

  lemma DivModUnique(n: int, k: int, q: int, r: int)
    requires k >= 1 && 0 <= r < k && n == q * k + r
    ensures n % k == r
  {
    var d := n / k - q;
    assert n == (n / k) * k + n % k;
    assert d * k == r - n % k by { assert (n / k - q) * k == (n / k) * k - q * k; }
    Multiples(d, k);
  }

  lemma Multiples(d: int, k: int)
    requires k >= 1
    ensures d >= 1 ==> d * k >= k
    ensures d <= -1 ==> d * k <= -k
  {
  }

  /** Where an acknowledgement leaves the frontier: at `ackSeq` when the last batch was full. */
  ghost function FinalFrontier(b: Mailbox, ackSeq: Num, k: nat): Num
    requires k >= 1
  {
    var due := Asc(Due(b, ackSeq));
    if FullBatches(|due|, k) then ackSeq else Last(due)
  }

  lemma FinalFrontierAbove(b: Mailbox, ackSeq: Num, k: nat)
    requires k >= 1
    ensures FinalFrontier(b, ackSeq, k) <= ackSeq
    ensures FinalFrontier(b, ackSeq, k) == ackSeq || FinalFrontier(b, ackSeq, k) in b.msgs
  {
  }

  ghost predicate AckLoopResult(r: AckReply, b: Mailbox, ackSeq: Num, k: nat, count: nat)
    requires k >= 1
  {
    && r.until == FinalFrontier(b, ackSeq, k)
    && r.count == count + |Due(b, ackSeq)|
    && r.box == Remove(b, Due(b, ackSeq)).(acked := r.until)
  }

  lemma VictimsAboveFrontier(b: Mailbox, ackSeq: Num, k: nat)
    requires FrontierChain(b) && Victims(b, ackSeq, k) != []
    ensures b.acked < Last(Victims(b, ackSeq, k))
  {
  }

  lemma AckLoopEnds(b: Mailbox, ackSeq: Num, k: nat, start: Num, count: nat)
    requires start <= b.acked < ackSeq && k >= 1 && FrontierChain(b)
    requires var vs := Victims(b, ackSeq, k); |vs| < k || Last(vs) >= ackSeq
    ensures AckLoopResult(AckLoop(b, ackSeq, k, start, b.acked, count), b, ackSeq, k, count)
  {
    if Victims(b, ackSeq, k) == [] {
      RemoveNothing(b, ackSeq, k);
    } else {
      VictimsAboveFrontier(b, ackSeq, k);
      LastBatch(b, ackSeq, k);
    }
  }

  lemma {:induction false} AckLoopOutcome(b: Mailbox, ackSeq: Num, k: nat, start: Num, count: nat)
    returns (r: AckReply)
    requires Consistent(b) && start <= b.acked < ackSeq <= b.delivered && k >= 1
    ensures r == AckLoop(b, ackSeq, k, start, b.acked, count)
    ensures AckLoopResult(r, b, ackSeq, k, count)
    decreases Due(b, ackSeq)
  {
    hide AckLoopResult, Correspondence, AckLoop, Asc;
    var vs := Victims(b, ackSeq, k);
    if |vs| < k || Last(vs) >= ackSeq {
      r := AckLoop(b, ackSeq, k, start, b.acked, count);
      AckLoopEnds(b, ackSeq, k, start, count);
    } else {
      var b' := AckBatch(b, ackSeq, k, start);
      assert Due(b', ackSeq) < Due(b, ackSeq) by { AckBatchShrinks(b, ackSeq, k, start); }
      AckBatchKeeps(b, ackSeq, k, start);
      assert start <= b'.acked == Last(vs) by { VictimsAboveFrontier(b, ackSeq, k); }
      r := AckLoopOutcome(b', ackSeq, k, start, count + k);
      AckLoopUnfold(b, ackSeq, k, start, b.acked, count);
      MoreBatches(r, b, b', ackSeq, k, start, count);
    }
  }

  lemma AckLoopUnfold(b: Mailbox, ackSeq: Num, k: nat, start: Num, until: Num, count: nat)
    requires k >= 1 && |Victims(b, ackSeq, k)| == k && Last(Victims(b, ackSeq, k)) < ackSeq
    ensures AckLoop(b, ackSeq, k, start, until, count)
         == AckLoop(AckBatch(b, ackSeq, k, start), ackSeq, k, start, Last(Victims(b, ackSeq, k)), count + k)
  {
    hide AckBatch, Victims;
  }

  /** A full batch followed by an acknowledgement of the rest amounts to one acknowledgement. */
  lemma MoreBatches(r: AckReply, b: Mailbox, b': Mailbox, ackSeq: Num, k: nat, start: Num, count: nat)
    requires k >= 1 && |Victims(b, ackSeq, k)| == k
    requires b' == AckBatch(b, ackSeq, k, start) && AckLoopResult(r, b', ackSeq, k, count + k)
    ensures AckLoopResult(r, b, ackSeq, k, count)
  {
    assert |Due(b, ackSeq)| == k + |Due(b', ackSeq)|
        && FinalFrontier(b, ackSeq, k) == FinalFrontier(b', ackSeq, k) by {
      RestAfterBatch(b, ackSeq, k, start);
    }
    RemoveRest(b, ackSeq, k, start, r.until);
  }

  lemma RemoveRest(b: Mailbox, ackSeq: Num, k: nat, start: Num, a: Num)
    requires k >= 1 && Victims(b, ackSeq, k) != []
    ensures var b' := AckBatch(b, ackSeq, k, start);
            Remove(b, Due(b, ackSeq)).(acked := a) == Remove(b', Due(b', ackSeq)).(acked := a)
  {
    var first := Elements(Victims(b, ackSeq, k));
    var b' := AckBatch(b, ackSeq, k, start);
    assert first + Due(b', ackSeq) == Due(b, ackSeq) by {
      VictimsAreDue(b, ackSeq, k);
      AckBatchShrinks(b, ackSeq, k, start);
    }
    RemoveRemove(b, first, Due(b', ackSeq));
    RemoveIgnoresAcked(Remove(b, first), Due(b', ackSeq), b'.acked);
  }

  lemma RemoveIgnoresAcked(b: Mailbox, ns: set<Num>, a: Num)
    ensures Remove(b.(acked := a), ns) == Remove(b, ns).(acked := a)
  {
  }

  lemma VictimsAreDue(b: Mailbox, ackSeq: Num, k: nat)
    ensures Elements(Victims(b, ackSeq, k)) <= Due(b, ackSeq)
  {
  }

  lemma RemoveNothing(b: Mailbox, ackSeq: Num, k: nat)
    requires Victims(b, ackSeq, k) == [] && k >= 1
    ensures Due(b, ackSeq) == {} && Remove(b, Due(b, ackSeq)) == b
    ensures FinalFrontier(b, ackSeq, k) == ackSeq
  {
  }

  lemma TruncatedBatch(b: Mailbox, ackSeq: Num, k: nat)
    requires k >= 1
    ensures |Due(b, ackSeq)| > k ==> |Victims(b, ackSeq, k)| == k && Last(Victims(b, ackSeq, k)) < ackSeq
  {
    var all := Asc(Due(b, ackSeq));
    AscElements(Due(b, ackSeq));
    AscIncreasing(Due(b, ackSeq));
    if |all| > k {
      assert all[k - 1] < all[k] <= ackSeq;
    }
  }

  /** A batch that is not full, or that reaches `ackSeq`, deletes everything that is due. */
  lemma LastBatch(b: Mailbox, ackSeq: Num, k: nat)
    requires k >= 1 && Victims(b, ackSeq, k) != []
    requires |Victims(b, ackSeq, k)| < k || Last(Victims(b, ackSeq, k)) >= ackSeq
    ensures Elements(Victims(b, ackSeq, k)) == Due(b, ackSeq)
    ensures |Victims(b, ackSeq, k)| == |Due(b, ackSeq)|
    ensures Last(Victims(b, ackSeq, k)) == FinalFrontier(b, ackSeq, k)
  {
    var vs, all := Victims(b, ackSeq, k), Asc(Due(b, ackSeq));
    AscElements(Due(b, ackSeq));
    TruncatedBatch(b, ackSeq, k);
    assert vs == all;
    if |vs| == k { assert FullBatches(k, k); } else { assert !FullBatches(|vs|, k); }
  }

  /**
   An accepted acknowledgement deletes exactly the live messages up to `ackSeq` from all three
   families, reports how many they were, and leaves the acked frontier at the value it returns.
   */
  lemma AckResult(b: Mailbox, ackSeq: Num, k: nat)
    requires Consistent(b) && AckAccepted(b, ackSeq) && k >= 1
    ensures var (b', outcome) := Ack(b, ackSeq, k);
            && outcome == Acked(FinalFrontier(b, ackSeq, k), |Due(b, ackSeq)|)
            && b' == Remove(b, Due(b, ackSeq)).(acked := outcome.until)
            && (forall n :: n in b'.msgs <==> n in b.msgs && ackSeq < n)
  {
    var r := AckLoopOutcome(b, ackSeq, k, b.acked, 0);
  }

  lemma LastDue(b: Mailbox, ackSeq: Num)
    requires Due(b, ackSeq) != {}
    ensures Last(Asc(Due(b, ackSeq))) <= ackSeq
    ensures Last(Asc(Due(b, ackSeq))) == ackSeq <==> ackSeq in b.msgs
  {
    AscElements(Due(b, ackSeq));
    AscIncreasing(Due(b, ackSeq));
    if ackSeq in b.msgs {
      var i := AscFind(Due(b, ackSeq), ackSeq);
      assert Asc(Due(b, ackSeq))[i] <= Last(Asc(Due(b, ackSeq)));
    }
  }

  /**
   An accepted acknowledgement leaves the frontier short of `ackSeq` exactly when that message is
   already gone and the messages to delete do not fill whole batches.
   */
  lemma AckFallsShort(b: Mailbox, ackSeq: Num, k: nat)
    requires Consistent(b) && AckAccepted(b, ackSeq) && k >= 1
    ensures Ack(b, ackSeq, k).0.acked < ackSeq <==> ackSeq !in b.msgs && |Due(b, ackSeq)| % k != 0
  {
    AckResult(b, ackSeq, k);
    FullBatchesMeansMultiple(|Due(b, ackSeq)|, k);
    hide Ack, Asc;
    if Due(b, ackSeq) != {} { LastDue(b, ackSeq); }
  }

  /** Sending the same acknowledgement again deletes nothing more and completes the frontier. */
  lemma AckTwice(b: Mailbox, ackSeq: Num, k: nat)
    requires Consistent(b) && AckAccepted(b, ackSeq) && k >= 1
    ensures var b' := Ack(b, ackSeq, k).0;
            Ack(b', ackSeq, k) == (b'.(acked := ackSeq), Acked(ackSeq, 0))
  {
    AckResult(b, ackSeq, k);
    var b' := Ack(b, ackSeq, k).0;
    AckKeeps(b, ackSeq, k);
    FinalFrontierAbove(b, ackSeq, k);
    if b'.acked < ackSeq {
      AckResult(b', ackSeq, k);
      assert Due(b', ackSeq) == {};
      RemoveNothing(b', ackSeq, k);
    }
  }

  lemma AckKeeps(b: Mailbox, ackSeq: Num, k: nat)
    requires Consistent(b) && k >= 1
    ensures var b' := Ack(b, ackSeq, k).0; Consistent(b') && FrontiersGrow(b, b')
  {
    if AckAccepted(b, ackSeq) {
      AckResult(b, ackSeq, k);
      RemoveKeeps(b, Due(b, ackSeq));
      FinalFrontierAbove(b, ackSeq, k);
    }
  }

  /***** Acknowledgements cut short *****/

  /** A context that lasts gives the acknowledgement that `Ack` describes. */
  lemma {:induction false} AckWithinCompletes(b: Mailbox, ackSeq: Num, k: nat, start: Num, until: Num, count: nat,
                                              left: nat)
    requires k >= 1 && !AckWithin(b, ackSeq, k, start, until, count, left).1.Cancelled?
    ensures var r := AckLoop(b, ackSeq, k, start, until, count);
            AckWithin(b, ackSeq, k, start, until, count, left) == (r.box, Acked(r.until, r.count))
    decreases Due(b, ackSeq)
  {
    hide AckBatch, Victims;
    var vs := Victims(b, ackSeq, k);
    if vs == [] || |vs| < k || Last(vs) >= ackSeq {
    } else {
      AckBatchShrinks(b, ackSeq, k, start);
      AckWithinCompletes(AckBatch(b, ackSeq, k, start), ackSeq, k, start, Last(vs), count + |vs|, left - |vs|);
    }
  }

  lemma AckUnderCompletes(b: Mailbox, ackSeq: Num, k: nat, budget: nat)
    requires k >= 1 && !AckUnder(b, ackSeq, k, budget).1.Cancelled?
    ensures AckUnder(b, ackSeq, k, budget) == Ack(b, ackSeq, k)
  {
    hide AckLoop, AckWithin;
    if AckAccepted(b, ackSeq) {
      AckWithinCompletes(b, ackSeq, k, b.acked, b.acked, 0, budget - 1);
    }
  }

  /** The mailbox after the first `m` due messages have been deleted and acknowledged. */
  ghost function CutAfter(b: Mailbox, ackSeq: Num, m: nat): Mailbox
    requires m <= |Due(b, ackSeq)|
  {
    var due := Asc(Due(b, ackSeq));
    Remove(b, Elements(due[..m])).(acked := if m == 0 then b.acked else due[m - 1])
  }

  lemma CutNowhere(b: Mailbox, ackSeq: Num)
    ensures CutAfter(b, ackSeq, 0) == b
  {
    var due := Asc(Due(b, ackSeq));
    assert Elements(due[..0]) == {};
    assert b.msgs - {} == b.msgs && Ids(b, {}) == {} && b.dup - {} == b.dup && Expiries(b, {}) == {};
  }

  lemma ElementsConcat(s: seq<Num>, t: seq<Num>)
    ensures Elements(s + t) == Elements(s) + Elements(t)
  {
  }

  /** Cutting after a full batch and then after `m` more messages is cutting after all of them. */
  lemma CutTwice(b: Mailbox, ackSeq: Num, k: nat, start: Num, m: nat)
    requires k >= 1 && FrontierChain(b) && start <= b.acked
    requires |Victims(b, ackSeq, k)| == k && m <= |Due(AckBatch(b, ackSeq, k, start), ackSeq)|
    ensures k + m <= |Due(b, ackSeq)|
    ensures CutAfter(AckBatch(b, ackSeq, k, start), ackSeq, m) == CutAfter(b, ackSeq, k + m)
  {
    hide Asc, Due, Remove, Elements;
    var b', vs, due := AckBatch(b, ackSeq, k, start), Victims(b, ackSeq, k), Asc(Due(b, ackSeq));
    RestAfterBatch(b, ackSeq, k, start);
    FullBatchMoves(b, ackSeq, k, start);
    assert vs == due[..k];
    hide Victims;
    var rest := due[k..][..m];
    assert due[..k + m] == vs + rest;
    ElementsConcat(vs, rest);
    RemoveRemove(b, Elements(vs), Elements(rest));
    RemoveIgnoresAcked(Remove(b, Elements(vs)), Elements(rest), b'.acked);
  }

  /** The part of `n` deletions that fills whole batches of `k`. */
  function Committed(n: nat, k: nat): (m: nat)
    requires k >= 1
    ensures m <= n
  {
    if n < k then 0 else k + Committed(n - k, k)
  }

  lemma {:induction false} CommittedIsMultiple(n: nat, k: nat)
    requires k >= 1
    ensures Committed(n, k) == n - n % k
    decreases n
  {
    if n < k {
    } else {
      CommittedIsMultiple(n - k, k);
      ModShift(n, k);
    }
  }

  lemma AckWithinStops(b: Mailbox, ackSeq: Num, k: nat, start: Num, until: Num, count: nat, left: nat)
    requires k >= 1 && left < BatchChecks(b, ackSeq, k)
    ensures left < k && left <= |Victims(b, ackSeq, k)|
    ensures AckWithin(b, ackSeq, k, start, until, count, left)
         == (b, Cancelled(if left == 0 then until else Victims(b, ackSeq, k)[left - 1], count + left))
  {
    hide AckBatch, Victims;
  }

  lemma AckWithinGoesOn(b: Mailbox, ackSeq: Num, k: nat, start: Num, until: Num, count: nat, left: nat)
    requires k >= 1 && left >= BatchChecks(b, ackSeq, k)
    requires |Victims(b, ackSeq, k)| == k && Last(Victims(b, ackSeq, k)) < ackSeq
    ensures left >= k
    ensures AckWithin(b, ackSeq, k, start, until, count, left)
         == AckWithin(AckBatch(b, ackSeq, k, start), ackSeq, k, start, Last(Victims(b, ackSeq, k)), count + k, left - k)
  {
    hide AckBatch, Victims;
  }

  lemma AckWithinEnds(b: Mailbox, ackSeq: Num, k: nat, start: Num, until: Num, count: nat, left: nat)
    requires k >= 1 && left >= BatchChecks(b, ackSeq, k) && until < ackSeq
    requires var vs := Victims(b, ackSeq, k); |vs| < k || Last(vs) >= ackSeq
    ensures AckWithin(b, ackSeq, k, start, until, count, left).0 == AckBatch(b, ackSeq, k, start)
    ensures AckWithin(b, ackSeq, k, start, until, count, left).1.Acked?
  {
    hide AckBatch, Victims;
  }

  /** What an acknowledgement that is cut short after `left` more checks leaves and reports. */
  ghost function Cut(b: Mailbox, ackSeq: Num, k: nat, count: nat, left: nat): (Mailbox, AckOutcome)
    requires k >= 1 && left <= |Due(b, ackSeq)|
  {
    (CutAfter(b, ackSeq, Committed(left, k)),
     Cancelled(if left == 0 then b.acked else Asc(Due(b, ackSeq))[left - 1], count + left))
  }

  lemma CutLater(b: Mailbox, ackSeq: Num, k: nat, start: Num, count: nat, left: nat)
    requires k >= 1 && FrontierChain(b) && start <= b.acked && left >= k
    requires |Victims(b, ackSeq, k)| == k && left - k <= |Due(AckBatch(b, ackSeq, k, start), ackSeq)|
    ensures left <= |Due(b, ackSeq)|
    ensures Cut(AckBatch(b, ackSeq, k, start), ackSeq, k, count + k, left - k) == Cut(b, ackSeq, k, count, left)
  {
    hide CutAfter, AckBatch, Asc, Due;
    RestAfterBatch(b, ackSeq, k, start);
    FullBatchMoves(b, ackSeq, k, start);
    CutTwice(b, ackSeq, k, start, Committed(left - k, k));
  }

  /**
   An acknowledgement cut short keeps exactly its full batches: of the `left` deletions it
   reports, those of the last, unfinished batch did not happen.
   */
  lemma {:induction false} AckWithinCut(b: Mailbox, ackSeq: Num, k: nat, start: Num, count: nat, left: nat)
    requires Consistent(b) && start <= b.acked < ackSeq <= b.delivered && k >= 1
    requires AckWithin(b, ackSeq, k, start, b.acked, count, left).1.Cancelled?
    ensures left <= |Due(b, ackSeq)|
    ensures AckWithin(b, ackSeq, k, start, b.acked, count, left) == Cut(b, ackSeq, k, count, left)
    decreases Due(b, ackSeq)
  {
    hide Correspondence, Named, AckBatch, Asc, Due, CutAfter, AckWithin, Cut, BatchChecks;
    var vs := Victims(b, ackSeq, k);
    if left < BatchChecks(b, ackSeq, k) {
      AckWithinStops(b, ackSeq, k, start, b.acked, count, left);
      CutAtOnce(b, ackSeq, k, count, left);
    } else if |vs| < k || Last(vs) >= ackSeq {
      AckWithinEnds(b, ackSeq, k, start, b.acked, count, left);
    } else {
      AckWithinGoesOn(b, ackSeq, k, start, b.acked, count, left);
      AckBatchKeeps(b, ackSeq, k, start);
      AckBatchShrinks(b, ackSeq, k, start);
      FullBatchMoves(b, ackSeq, k, start);
      AckWithinCut(AckBatch(b, ackSeq, k, start), ackSeq, k, start, count + k, left - k);
      CutLater(b, ackSeq, k, start, count, left);
    }
  }

  lemma CutAtOnce(b: Mailbox, ackSeq: Num, k: nat, count: nat, left: nat)
    requires k >= 1 && left < k && left <= |Victims(b, ackSeq, k)|
    ensures left <= |Due(b, ackSeq)|
    ensures Cut(b, ackSeq, k, count, left)
         == (b, Cancelled(if left == 0 then b.acked else Victims(b, ackSeq, k)[left - 1], count + left))
  {
    hide CutAfter, Due;
    CutNowhere(b, ackSeq);
  }

  lemma FullBatchMoves(b: Mailbox, ackSeq: Num, k: nat, start: Num)
    requires FrontierChain(b) && start <= b.acked && k >= 1 && Victims(b, ackSeq, k) != []
    ensures AckBatch(b, ackSeq, k, start).acked == Last(Victims(b, ackSeq, k))
    ensures start <= Last(Victims(b, ackSeq, k))
  {
    VictimsAboveFrontier(b, ackSeq, k);
  }

  /**
   When the context ends, the batches committed so far stay and the reported count is the number
   of checks that passed, of which only whole batches were deleted.
   */
  lemma CutAckResult(b: Mailbox, ackSeq: Num, k: nat, budget: nat)
    requires Consistent(b) && k >= 1 && budget >= 1 && AckUnder(b, ackSeq, k, budget).1.Cancelled?
    ensures var (b', outcome) := AckUnder(b, ackSeq, k, budget);
            && AckAccepted(b, ackSeq)
            && outcome.count == budget - 1 <= |Due(b, ackSeq)|
            && b' == CutAfter(b, ackSeq, Committed(outcome.count, k))
            && outcome.until == if outcome.count == 0 then b.acked else Asc(Due(b, ackSeq))[outcome.count - 1]
  {
    hide AckWithin, CutAfter, Correspondence, Named, Asc, Due, Committed;
    AckWithinCut(b, ackSeq, k, b.acked, 0, budget - 1);
  }

  /** A count reported when the context ends is the number of messages deleted exactly when it fills whole batches. */
  lemma CutAckCount(b: Mailbox, ackSeq: Num, k: nat, budget: nat)
    requires Consistent(b) && k >= 1 && AckUnder(b, ackSeq, k, budget).1.Cancelled?
    ensures var (b', outcome) := AckUnder(b, ackSeq, k, budget);
            && |b.msgs| - |b'.msgs| == Committed(outcome.count, k) <= outcome.count
            && (|b.msgs| - |b'.msgs| == outcome.count <==> outcome.count % k == 0)
  {
    hide AckWithin, CutAfter, Correspondence, Named, Asc, Due, Committed;
    if budget >= 1 {
      CutAckResult(b, ackSeq, k, budget);
      CutCounts(b, ackSeq, Committed(budget - 1, k));
    }
    CommittedIsMultiple(AckUnder(b, ackSeq, k, budget).1.count, k);
  }

  /**
   The context checks of a whole acknowledgement: one for each due message, and one for the first
   message beyond them unless the last batch is full and ends at `ackSeq` itself.
   */
  function AckChecks(b: Mailbox, ackSeq: Num, k: nat): nat
    requires k >= 1
  {
    var due := |Due(b, ackSeq)|;
    due + if |b.msgs| > due && !(ackSeq in b.msgs && due % k == 0) then 1 else 0
  }

  lemma LastBatchChecks(b: Mailbox, ackSeq: Num, k: nat)
    requires k >= 1
    requires |Victims(b, ackSeq, k)| < k || Last(Victims(b, ackSeq, k)) >= ackSeq
    ensures BatchChecks(b, ackSeq, k) == AckChecks(b, ackSeq, k)
  {
    if Victims(b, ackSeq, k) == [] {
      NoVictims(b, ackSeq, k);
    } else {
      LastBatch(b, ackSeq, k);
      LastDue(b, ackSeq);
      hide Asc, Due;
      var n := |Due(b, ackSeq)|;
      FullBatchesMeansMultiple(n, k);
    }
  }

  lemma FullBatchChecks(b: Mailbox, ackSeq: Num, k: nat, start: Num)
    requires k >= 1 && |Victims(b, ackSeq, k)| == k && Last(Victims(b, ackSeq, k)) < ackSeq
    ensures BatchChecks(b, ackSeq, k) == k
    ensures AckChecks(b, ackSeq, k) == k + AckChecks(AckBatch(b, ackSeq, k, start), ackSeq, k)
  {
    hide Asc;
    var b', vs := AckBatch(b, ackSeq, k, start), Victims(b, ackSeq, k);
    BatchCounts(b, ackSeq, k, start);
    NotAVictim(b, ackSeq, k);
    hide Victims, Due;
    ModShift(|Due(b, ackSeq)|, k);
  }

  lemma VictimsCount(b: Mailbox, ackSeq: Num, k: nat)
    ensures |Elements(Victims(b, ackSeq, k))| == |Victims(b, ackSeq, k)|
    ensures Elements(Victims(b, ackSeq, k)) <= b.msgs.Keys
  {
    hide Asc;
    AscIncreasing(Due(b, ackSeq));
    IncreasingLength(Victims(b, ackSeq, k), Elements(Victims(b, ackSeq, k)));
  }

  lemma BatchCounts(b: Mailbox, ackSeq: Num, k: nat, start: Num)
    requires Victims(b, ackSeq, k) != []
    ensures var b', n := AckBatch(b, ackSeq, k, start), |Victims(b, ackSeq, k)|;
            |Due(b, ackSeq)| == n + |Due(b', ackSeq)| && |b.msgs| == n + |b'.msgs|
  {
    hide Asc, Due, Elements;
    var b', vs := AckBatch(b, ackSeq, k, start), Victims(b, ackSeq, k);
    RestAfterBatch(b, ackSeq, k, start);
    VictimsCount(b, ackSeq, k);
    hide Victims;
    assert b'.msgs.Keys == b.msgs.Keys - Elements(vs);
  }

  lemma NotAVictim(b: Mailbox, ackSeq: Num, k: nat)
    requires k >= 1 && Victims(b, ackSeq, k) != [] && Last(Victims(b, ackSeq, k)) < ackSeq
    ensures ackSeq !in Elements(Victims(b, ackSeq, k))
  {
    AscIncreasing(Due(b, ackSeq));
  }

  lemma {:induction false} AckWithinCutIff(b: Mailbox, ackSeq: Num, k: nat, start: Num, until: Num, count: nat,
                                           left: nat)
    requires k >= 1 && until < ackSeq
    ensures AckWithin(b, ackSeq, k, start, until, count, left).1.Cancelled? <==> left < AckChecks(b, ackSeq, k)
    decreases Due(b, ackSeq)
  {
    hide AckBatch, Asc, Due, AckWithin, BatchChecks, AckChecks;
    var vs := Victims(b, ackSeq, k);
    if |vs| < k || Last(vs) >= ackSeq {
      LastBatchChecks(b, ackSeq, k);
      if left < BatchChecks(b, ackSeq, k) {
        AckWithinStops(b, ackSeq, k, start, until, count, left);
      } else {
        AckWithinEnds(b, ackSeq, k, start, until, count, left);
      }
    } else {
      FullBatchChecks(b, ackSeq, k, start);
      if left < BatchChecks(b, ackSeq, k) {
        AckWithinStops(b, ackSeq, k, start, until, count, left);
      } else {
        AckWithinGoesOn(b, ackSeq, k, start, until, count, left);
        AckBatchShrinks(b, ackSeq, k, start);
        AckWithinCutIff(AckBatch(b, ackSeq, k, start), ackSeq, k, start, Last(vs), count + k, left - k);
      }
    }
  }

  /** An acknowledgement is cut short exactly when its context does not last for the checks it makes. */
  lemma AckIsCutIff(b: Mailbox, ackSeq: Num, k: nat, budget: nat)
    requires k >= 1
    ensures AckUnder(b, ackSeq, k, budget).1.Cancelled?
       <==> budget == 0 || (AckAccepted(b, ackSeq) && budget - 1 < AckChecks(b, ackSeq, k))
  {
    hide AckWithin, AckChecks;
    if budget >= 1 && AckAccepted(b, ackSeq) {
      AckWithinCutIff(b, ackSeq, k, b.acked, b.acked, 0, budget - 1);
    }
  }

  /** The context ends while an accepted acknowledgement is inside a batch. */
  predicate CutInsideBatch(b: Mailbox, ackSeq: Num, k: nat, budget: nat)
    requires k >= 1
  {
    AckAccepted(b, ackSeq) && 1 <= budget <= AckChecks(b, ackSeq, k) && (budget - 1) % k != 0
  }

  lemma CompleteAckCounts(b: Mailbox, ackSeq: Num, k: nat)
    requires Consistent(b) && k >= 1
    ensures var (b', outcome) := Ack(b, ackSeq, k);
            !outcome.Cancelled? && |b.msgs| - |b'.msgs| == Reported(outcome)
  {
    if AckAccepted(b, ackSeq) {
      AckResult(b, ackSeq, k);
      assert (b.msgs - Due(b, ackSeq)).Keys == b.msgs.Keys - Due(b, ackSeq);
      assert Due(b, ackSeq) <= b.msgs.Keys;
    }
  }

  /**
   An acknowledgement deletes as many messages as it reports, or fewer; it deletes fewer exactly
   when its context ends inside a batch.
   */
  lemma AckMisreportsIff(b: Mailbox, ackSeq: Num, k: nat, budget: nat)
    requires Consistent(b) && k >= 1
    ensures var (b', outcome) := AckUnder(b, ackSeq, k, budget);
            && |b.msgs| - |b'.msgs| <= Reported(outcome)
            && (|b.msgs| - |b'.msgs| != Reported(outcome) <==> CutInsideBatch(b, ackSeq, k, budget))
  {
    hide Consistent, Ack, AckUnder, AckChecks, Committed, CutAfter, Asc, Due, Remove;
    AckIsCutIff(b, ackSeq, k, budget);
    if AckUnder(b, ackSeq, k, budget).1.Cancelled? {
      CutAckCount(b, ackSeq, k, budget);
      if budget >= 1 {
        CutAckResult(b, ackSeq, k, budget);
      } else {
        CutBeforeStart(b, ackSeq, k);
      }
    } else {
      AckUnderCompletes(b, ackSeq, k, budget);
      CompleteAckCounts(b, ackSeq, k);
    }
  }

  lemma CutBeforeStart(b: Mailbox, ackSeq: Num, k: nat)
    requires k >= 1
    ensures AckUnder(b, ackSeq, k, 0) == (b, Cancelled(0, 0))
  {
  }

  lemma CutCounts(b: Mailbox, ackSeq: Num, m: nat)
    requires m <= |Due(b, ackSeq)|
    ensures |CutAfter(b, ackSeq, m).msgs| == |b.msgs| - m
  {
    hide Asc, Ids, Expiries;
    var due := Asc(Due(b, ackSeq));
    AscIncreasing(Due(b, ackSeq));
    AscElements(Due(b, ackSeq));
    IncreasingLength(due[..m], Elements(due[..m]));
    assert Elements(due[..m]) <= b.msgs.Keys;
    assert (b.msgs - Elements(due[..m])).Keys == b.msgs.Keys - Elements(due[..m]);
  }

  /** An acknowledgement, complete or cut short after any batch, keeps the mailbox consistent. */
  lemma {:induction false} AckWithinKeeps(b: Mailbox, ackSeq: Num, k: nat, start: Num, count: nat, left: nat)
    requires Consistent(b) && start <= b.acked < ackSeq <= b.delivered && k >= 1
    ensures var b' := AckWithin(b, ackSeq, k, start, b.acked, count, left).0;
            && Consistent(b') && FrontiersGrow(b, b')
            && b'.acked <= ackSeq && b'.delivered == b.delivered && b'.last == b.last
    decreases Due(b, ackSeq)
  {
    hide Correspondence, Named, AckBatch, Due, AckWithin, BatchChecks;
    var vs := Victims(b, ackSeq, k);
    AckBatchKeeps(b, ackSeq, k, start);
    if left < BatchChecks(b, ackSeq, k) {
      AckWithinStops(b, ackSeq, k, start, b.acked, count, left);
    } else if |vs| < k || Last(vs) >= ackSeq {
      AckWithinEnds(b, ackSeq, k, start, b.acked, count, left);
    } else {
      AckWithinGoesOn(b, ackSeq, k, start, b.acked, count, left);
      AckBatchShrinks(b, ackSeq, k, start);
      FullBatchMoves(b, ackSeq, k, start);
      AckWithinKeeps(AckBatch(b, ackSeq, k, start), ackSeq, k, start, count + k, left - k);
    }
  }

  lemma AckUnderKeeps(b: Mailbox, ackSeq: Num, k: nat, budget: nat)
    requires Consistent(b) && k >= 1
    ensures var b' := AckUnder(b, ackSeq, k, budget).0;
            Consistent(b') && FrontiersGrow(b, b') && b'.delivered == b.delivered && b'.last == b.last
  {
    hide AckWithin;
    if AckAccepted(b, ackSeq) && budget >= 1 {
      AckWithinKeeps(b, ackSeq, k, b.acked, 0, budget - 1);
    }
  }

  /**
   The answer to an acknowledgement. Nothing changes if the context has ended, or if `ackSeq` is at
   or below the acked frontier or beyond the delivered one; the frontier that an acknowledgement
   answers with is always the one it leaves.
   */
  lemma AckAnswers(b: Mailbox, ackSeq: Num, k: nat, budget: nat)
    requires Consistent(b) && k >= 1
    ensures var (b', outcome) := AckUnder(b, ackSeq, k, budget);
            && (budget == 0 ==> b' == b && outcome == Cancelled(0, 0))
            && (budget >= 1 && ackSeq <= b.acked ==> b' == b && outcome == Acked(b.acked, 0))
            && (budget >= 1 && b.delivered < ackSeq ==> b' == b && outcome == BeyondDelivered(b.acked))
            && (budget >= 1 && b.acked < ackSeq <= b.delivered ==> !outcome.BeyondDelivered?)
            && (!outcome.Cancelled? ==> outcome.until == b'.acked)
  {
    hide AckWithin, AckLoop;
    if !AckUnder(b, ackSeq, k, budget).1.Cancelled? {
      AckUnderCompletes(b, ackSeq, k, budget);
      if b.acked < ackSeq <= b.delivered { AckResult(b, ackSeq, k); }
    }
  }

  /***** Collect expired *****/

  lemma CollectKeeps(b: Mailbox, e: int, n: Num)
    requires Consistent(b)
    requires n in b.msgs ==> b.msgs[n].expireAt == e
    ensures var b' := Collect(b, e, n);
            && Consistent(b') && FrontiersGrow(b, b')
            && b' == Remove(b, {n})
            && (n !in b.msgs ==> b' == b)
  {
    if n in b.msgs {
      assert Ids(b, {n}) == {b.msgs[n].envelope.msgId};
      assert Expiries(b, {n}) == {ExpEntry(e, n)};
    } else {
      assert ExpEntry(e, n) !in b.exp;
      assert b.msgs - {n} == b.msgs && Ids(b, {n}) == {} && b.dup - {} == b.dup;
      assert Expiries(b, {n}) == {} && b.exp - {ExpEntry(e, n)} == b.exp;
    }
    RemoveKeeps(b, {n});
  }

  /** Collection keeps the families in agreement exactly when the message has a non-empty id. */
  lemma CollectNeedsId(b: Mailbox, n: Num)
    requires Correspondence(b) && n in b.msgs
    ensures Correspondence(Collect(b, b.msgs[n].expireAt, n)) <==> b.msgs[n].envelope.msgId != []
  {
  }

  /***** Fetch *****/

  ghost predicate InOrder(items: seq<StoredMessage>)
  {
    forall i, j | 0 <= i < j < |items| :: items[i].storeSeq < items[j].storeSeq
  }

  ghost predicate Holds(items: seq<StoredMessage>, n: Num)
  {
    exists i :: 0 <= i < |items| && items[i].storeSeq == n
  }

  /** `items` lists messages numbered in `due`, in ascending order. */
  ghost predicate ListsSome(items: seq<StoredMessage>, b: Mailbox, due: set<Num>)
  {
    && InOrder(items)
    && (forall i | 0 <= i < |items| ::
          && items[i].storeSeq in due && items[i].storeSeq in b.msgs
          && items[i].entry == b.msgs[items[i].storeSeq])
  }

  lemma ListingExact(b: Mailbox, lo: Num, now: int)
    ensures ListsSome(Listing(b, lo, now), b, Unexpired(b, lo, now))
    ensures forall n | n in Unexpired(b, lo, now) :: Holds(Listing(b, lo, now), n)
  {
  }

  /** What follows a message in a listing is the listing from the next number on. */
  lemma ListingAfter(b: Mailbox, lo: Num, now: int, i: nat)
    requires i < |Listing(b, lo, now)|
    ensures var n := Listing(b, lo, now)[i].storeSeq;
            && lo <= n && n in b.msgs
            && Listing(b, n + 1, now) == Listing(b, lo, now)[i + 1..]
            && Unexpired(b, n + 1, now) < Unexpired(b, lo, now)
  {
    var all := Unexpired(b, lo, now);
    var n := Asc(all)[i];
    AscElements(all);
    AscAbove(all, i);
    assert Unexpired(b, n + 1, now) == set k | k in all && n < k;
    assert n in all && n !in Unexpired(b, n + 1, now);
  }

  /**
   A page holds, in ascending order, messages that are due; every other due message comes after
   all of them, and `hasMore` says whether there is one.
   */
  ghost predicate ExactPage(page: Page, limit: int, b: Mailbox, due: set<Num>)
  {
    && |page.items| <= limit
    && ListsSome(page.items, b, due)
    && (forall n | n in due :: Holds(page.items, n) || (page.hasMore && |page.items| == limit && Beyond(page.items, n)))
    && (page.hasMore ==> exists n :: n in due && Beyond(page.items, n))
  }

  ghost predicate Beyond(items: seq<StoredMessage>, n: Num)
  {
    forall i | 0 <= i < |items| :: items[i].storeSeq < n
  }

  lemma FetchExact(b: Mailbox, after: Num, limit: int, now: int)
    requires limit > 0 && after < MAX_UINT64
    ensures ExactPage(Fetch(b, after, limit, now), limit, b, Unexpired(b, after + 1, now))
  {
    ListingExact(b, after + 1, now);
    TakeExact(Listing(b, after + 1, now), limit, b, Unexpired(b, after + 1, now));
  }

  lemma TakeExact(all: seq<StoredMessage>, limit: int, b: Mailbox, due: set<Num>)
    requires limit > 0 && ListsSome(all, b, due) && forall n | n in due :: Holds(all, n)
    ensures ExactPage(Page(Take(all, limit), |all| > limit), limit, b, due)
  {
    var items := Take(all, limit);
    forall n | n in due ensures Holds(items, n) || (|all| > limit && |items| == limit && Beyond(items, n)) {
      assert Holds(all, n);
      var j :| 0 <= j < |all| && all[j].storeSeq == n;
      if j < |items| { assert items[j].storeSeq == n; }
    }
    if |all| > limit {
      assert all[limit].storeSeq in due && Beyond(items, all[limit].storeSeq);
    }
  }

  /** A message is the first that a fetch just below it returns exactly while it has not expired. */
  lemma FetchSees(b: Mailbox, n: Num, limit: int, now: int)
    requires limit > 0 && 1 <= n <= MAX_UINT64 && n in b.msgs
    ensures var items := Fetch(b, n - 1, limit, now).items;
            if now < b.msgs[n].expireAt then items != [] && items[0] == StoredMessage(n, b.msgs[n])
            else !Holds(items, n)
  {
    FetchExact(b, n - 1, limit, now);
    hide Fetch;
    if now < b.msgs[n].expireAt {
      var items := Fetch(b, n - 1, limit, now).items;
      assert n in Unexpired(b, n, now);
      assert Holds(items, n) || Beyond(items, n);
      assert items[0].storeSeq in Unexpired(b, n, now);
    }
  }

  /** What a caller sees of a stored message: a fetch returns it exactly until its time to live is over. */
  lemma StoredIsFetched(b: Mailbox, env: Envelope, now: int, quota: Option<Quota>, size: Sizer, limit: int, later: int)
    requires Consistent(b) && b.last < MAX_UINT64 && TimesFit(env, now) && Store(b, env, now, quota, size).1.Stored?
    requires limit > 0
    ensures var b' := Store(b, env, now, quota, size).0;
            var items := Fetch(b', b.last, limit, later).items;
            if later < ExpiryOf(env, now) then
              items != [] && items[0] == StoredMessage(b.last + 1, Entry(now, ExpiryOf(env, now), env))
            else !Holds(items, b.last + 1)
  {
    StoredExactly(b, env, now, quota, size);
    hide Store, Fetch;
    FetchSees(Store(b, env, now, quota, size).0, b.last + 1, limit, later);
  }

  lemma NoLimitNoMessages(b: Mailbox, after: Num, limit: int, now: int)
    requires limit <= 0
    ensures Fetch(b, after, limit, now) == Page([], false)
  {
  }

  /** The uint64 addition wraps: a page above the largest number starts over at the first message. */
  lemma FetchWraps(b: Mailbox, after: Num, limit: int, now: int)
    requires IsUint64(after) && limit > 0 && forall n | n in b.msgs :: IsUint64(n)
    ensures (forall i | 0 <= i < |Fetch(b, after, limit, now).items| ::
               after < Fetch(b, after, limit, now).items[i].storeSeq)
       <==> after < MAX_UINT64 || Unexpired(b, 0, now) == {}
  {
    var page := Fetch(b, after, limit, now);
    if after < MAX_UINT64 {
      FetchExact(b, after, limit, now);
    } else {
      ListingExact(b, 0, now);
      if n :| n in Unexpired(b, 0, now) {
        assert Holds(Listing(b, 0, now), n);
        assert page.items[0] == Listing(b, 0, now)[0];
      }
    }
  }

  /** A client that continues after the last message it got until `hasMore` is false. */
  ghost function Pages(b: Mailbox, after: Num, limit: int, now: int): seq<StoredMessage>
    requires limit > 0 && after < MAX_UINT64 && forall n | n in b.msgs :: IsUint64(n)
    decreases Unexpired(b, after + 1, now)
  {
    var page := Fetch(b, after, limit, now);
    if !page.hasMore then page.items else
      var next := page.items[limit - 1].storeSeq;
      PageProgress(b, after, limit, now);
      page.items + Pages(b, next, limit, now)
  }

  lemma PageProgress(b: Mailbox, after: Num, limit: int, now: int)
    requires limit > 0 && after < MAX_UINT64 && forall n | n in b.msgs :: IsUint64(n)
    requires Fetch(b, after, limit, now).hasMore
    ensures var items := Fetch(b, after, limit, now).items;
            var next := items[limit - 1].storeSeq;
            && after < next < MAX_UINT64
            && Unexpired(b, next + 1, now) < Unexpired(b, after + 1, now)
            && Listing(b, after + 1, now) == items + Listing(b, next + 1, now)
  {
    hide Listing;
    var all := Listing(b, after + 1, now);
    ListingAfter(b, after + 1, now, limit - 1);
    assert all[limit - 1].storeSeq < all[limit].storeSeq <= MAX_UINT64 by { ListingExact(b, after + 1, now); }
    assert all == all[..limit] + all[limit..];
  }

  /** Following the pages lists every unexpired message above `after` exactly once, in order. */
  lemma {:induction false} PagesListEverything(b: Mailbox, after: Num, limit: int, now: int)
    requires limit > 0 && after < MAX_UINT64 && forall n | n in b.msgs :: IsUint64(n)
    ensures Pages(b, after, limit, now) == Listing(b, after + 1, now)
    decreases Unexpired(b, after + 1, now)
  {
    hide Listing;
    if !Fetch(b, after, limit, now).hasMore {
    } else {
      PageProgress(b, after, limit, now);
      PagesListEverything(b, Fetch(b, after, limit, now).items[limit - 1].storeSeq, limit, now);
    }
  }
}

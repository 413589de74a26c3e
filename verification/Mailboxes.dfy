/**
 One recipient's part of the message store, and what each storage operation does to it.

 The functions here are the specification of the operations: `PebbleStore` proves that the code
 working on the flat byte-key store computes them, and `Runs` interleaves them.
 */
module Mailboxes {
  import opened ByteOrder
  import opened Options
  import opened Ascending
  import opened Decimal

  datatype Envelope = Envelope(msgId: Bytes, senderId: Bytes, recipientId: Bytes,
                               ttlSec: Option<int>, content: Bytes)
  {
    function EffectiveTtl(default: int): int
    {
      if ttlSec.None? then default else ttlSec.value
    }
  }

  /** A stored message without its sequence number. */
  datatype Entry = Entry(receivedAt: int, expireAt: int, envelope: Envelope)

  /** A key of the expiry index. */
  datatype ExpEntry = ExpEntry(expireAt: int, storeSeq: Num)

  datatype StoredMessage = StoredMessage(storeSeq: Num, entry: Entry)

  /** The five key families of one recipient; a counter that was never written is zero. */
  datatype Mailbox = Mailbox(
    msgs: map<Num, Entry>,
    dup: map<Bytes, Num>,
    exp: set<ExpEntry>,
    last: Num,
    delivered: Num,
    acked: Num)

  const EMPTY := Mailbox(map[], map[], {}, 0, 0, 0)

  /** The length of a message's stored form, which the JSON encoder decides. */
  type Sizer = StoredMessage -> nat

  /** Addition of one on uint64. */
  function NextSeq(n: Num): Num
  {
    if n == MAX_UINT64 then 0 else n + 1
  }

  /***** Store *****/

  datatype Quota = Quota(maxMessages: int, maxBytes: int)

  datatype StoreReply =
    | Duplicate(storeSeq: Num, expireAt: int)
    | Stored(storeSeq: Num, expireAt: int)
    | QuotaExceeded
    | BytesExceeded
    | InvalidPayload

  /** The stored bytes of a set of messages, added up in any order. */
  ghost function TotalBytes(msgs: map<Num, Entry>, size: Sizer): nat
    decreases |msgs.Keys|
  {
    if msgs.Keys == {} then 0 else
      var k :| k in msgs.Keys;
      size(StoredMessage(k, msgs[k])) + TotalBytes(msgs - {k}, size)
  }

  function NewEntry(env: Envelope, now: int): Entry
  {
    Entry(now, AddInt64(now, env.EffectiveTtl(0)), env)
  }

  predicate IsDuplicate(b: Mailbox, id: Bytes)
  {
    id in b.dup && b.dup[id] in b.msgs
  }

  ghost function Admit(b: Mailbox, m: StoredMessage, quota: Option<Quota>, size: Sizer): StoreReply
  {
    if quota.Some? && quota.value.maxMessages > 0 && |b.msgs| >= quota.value.maxMessages then
      QuotaExceeded
    else if quota.Some? && quota.value.maxBytes > 0
            && TotalBytes(b.msgs, size) + size(m) > quota.value.maxBytes then
      BytesExceeded
    else
      Stored(m.storeSeq, m.entry.expireAt)
  }

  ghost function Store(b: Mailbox, env: Envelope, now: int, quota: Option<Quota>, size: Sizer): (Mailbox, StoreReply)
  {
    if IsDuplicate(b, env.msgId) then
      (b, Duplicate(b.dup[env.msgId], b.msgs[b.dup[env.msgId]].expireAt))
    else
      var clean := b.(dup := b.dup - {env.msgId});
      var m := StoredMessage(NextSeq(b.last), NewEntry(env, now));
      var reply := Admit(clean, m, quota, size);
      if reply.Stored? then (Insert(clean, m), reply) else (clean, reply)
  }

  function Insert(b: Mailbox, m: StoredMessage): Mailbox
  {
    b.(msgs := b.msgs[m.storeSeq := m.entry],
       dup := b.dup[m.entry.envelope.msgId := m.storeSeq],
       exp := b.exp + {ExpEntry(m.entry.expireAt, m.storeSeq)},
       last := m.storeSeq)
  }

  /***** Fetch *****/

  datatype Page = Page(items: seq<StoredMessage>, hasMore: bool)

  function Unexpired(b: Mailbox, lo: Num, now: int): set<Num>
  {
    set n | n in b.msgs && lo <= n && now < b.msgs[n].expireAt
  }

  function Take<T>(s: seq<T>, k: nat): (r: seq<T>)
    ensures |r| <= k && r <= s
  {
    if |s| <= k then s else s[..k]
  }

  function Records(b: Mailbox, ns: seq<Num>): (r: seq<StoredMessage>)
    requires forall i | 0 <= i < |ns| :: ns[i] in b.msgs
    ensures |r| == |ns|
    ensures forall i | 0 <= i < |ns| :: r[i] == StoredMessage(ns[i], b.msgs[ns[i]])
  {
    seq(|ns|, i requires 0 <= i < |ns| => StoredMessage(ns[i], b.msgs[ns[i]]))
  }

  /** Every unexpired message from `lo` on, in order. */
  ghost function Listing(b: Mailbox, lo: Num, now: int): seq<StoredMessage>
  {
    AscElements(Unexpired(b, lo, now));
    Records(b, Asc(Unexpired(b, lo, now)))
  }

  ghost function Fetch(b: Mailbox, after: Num, limit: int, now: int): Page
  {
    if limit <= 0 then Page([], false) else
      var all := Listing(b, NextSeq(after), now);
      Page(Take(all, limit), |all| > limit)
  }

  /***** Mark delivered *****/

  function Seqs(items: seq<StoredMessage>): set<Num>
  {
    set i | 0 <= i < |items| :: items[i].storeSeq
  }

  predicate Passable(b: Mailbox, now: int, items: set<Num>, n: Num)
  {
    n in b.msgs && (b.msgs[n].expireAt <= now || n in items)
  }

  function Above(b: Mailbox, f: Num): set<Num>
  {
    set n | n in b.msgs && f < n
  }

  function Advance(b: Mailbox, now: int, items: set<Num>, f: Num): (g: Num)
    ensures f <= g
    decreases Above(b, f)
  {
    if Passable(b, now, items, f + 1) then
      assert f + 1 in Above(b, f) && f + 1 !in Above(b, f + 1);
      Advance(b, now, items, f + 1)
    else f
  }

  /** The walk starts at the number after `current`, which wraps; it may not get anywhere. */
  function NewFrontier(b: Mailbox, now: int, items: set<Num>, current: Num): Num
  {
    var before := NextSeq(current) - 1;
    var g := Advance(b, now, items, before);
    if g == before then current else g
  }

  function Mark(b: Mailbox, items: seq<StoredMessage>, now: int): Mailbox
  {
    if items == [] then b else b.(delivered := NewFrontier(b, now, Seqs(items), b.delivered))
  }

  /***** Acknowledge *****/

  function Due(b: Mailbox, ackSeq: Num): set<Num>
  {
    set n | n in b.msgs && n <= ackSeq
  }

  /** The messages that one batch deletes: the first `k` that are due. */
  ghost function Victims(b: Mailbox, ackSeq: Num, k: nat): (vs: seq<Num>)
    ensures |vs| <= k
    ensures forall i | 0 <= i < |vs| :: vs[i] in b.msgs && vs[i] <= ackSeq
  {
    AscElements(Due(b, ackSeq));
    Take(Asc(Due(b, ackSeq)), k)
  }

  function Ids(b: Mailbox, ns: set<Num>): set<Bytes>
  {
    set n | n in ns && n in b.msgs :: b.msgs[n].envelope.msgId
  }

  function Expiries(b: Mailbox, ns: set<Num>): set<ExpEntry>
  {
    set n | n in ns && n in b.msgs :: ExpEntry(b.msgs[n].expireAt, n)
  }

  function Remove(b: Mailbox, ns: set<Num>): Mailbox
  {
    b.(msgs := b.msgs - ns, dup := b.dup - Ids(b, ns), exp := b.exp - Expiries(b, ns))
  }

  function Last(s: seq<Num>): Num
    requires s != []
  {
    s[|s| - 1]
  }

  /** One committed batch of an acknowledgement that began when the acked frontier was `start`. */
  ghost function AckBatch(b: Mailbox, ackSeq: Num, k: nat, start: Num): Mailbox
  {
    var vs := Victims(b, ackSeq, k);
    if vs == [] then
      b.(acked := ackSeq)
    else
      Remove(b, Elements(vs)).(acked := if Last(vs) >= start then Last(vs) else b.acked)
  }

  datatype AckReply = AckReply(box: Mailbox, until: Num, count: nat)

  lemma AckBatchShrinks(b: Mailbox, ackSeq: Num, k: nat, start: Num)
    requires Victims(b, ackSeq, k) != []
    ensures Due(AckBatch(b, ackSeq, k, start), ackSeq) == Due(b, ackSeq) - Elements(Victims(b, ackSeq, k))
    ensures Due(AckBatch(b, ackSeq, k, start), ackSeq) < Due(b, ackSeq)
  {
  }

  /** The batches of an acknowledgement, continued from `until` and `count`. */
  ghost function AckLoop(b: Mailbox, ackSeq: Num, k: nat, start: Num, until: Num, count: nat): AckReply
    requires k >= 1
    decreases Due(b, ackSeq)
  {
    var vs := Victims(b, ackSeq, k);
    if vs == [] then
      if until < ackSeq then AckReply(AckBatch(b, ackSeq, k, start), ackSeq, count)
      else AckReply(b, until, count)
    else
      var b' := AckBatch(b, ackSeq, k, start);
      AckBatchShrinks(b, ackSeq, k, start);
      if |vs| < k || Last(vs) >= ackSeq then AckReply(b', Last(vs), count + |vs|)
      else AckLoop(b', ackSeq, k, start, Last(vs), count + |vs|)
  }

  datatype AckOutcome =
    | Acked(until: Num, count: nat)
    | BeyondDelivered(until: Num)
    | Cancelled(until: Num, count: nat)

  /** The number of deletions that an acknowledgement reports. */
  function Reported(outcome: AckOutcome): nat
  {
    if outcome.BeyondDelivered? then 0 else outcome.count
  }

  predicate AckAccepted(b: Mailbox, ackSeq: Num)
  {
    b.acked < ackSeq <= b.delivered
  }

  ghost function Ack(b: Mailbox, ackSeq: Num, k: nat): (Mailbox, AckOutcome)
    requires k >= 1
  {
    if ackSeq <= b.acked then (b, Acked(b.acked, 0))
    else if ackSeq > b.delivered then (b, BeyondDelivered(b.acked))
    else
      var r := AckLoop(b, ackSeq, k, b.acked, b.acked, 0);
      (r.box, Acked(r.until, r.count))
  }

  /** A batch checks its context once for each message it deletes, and once for the first one that it leaves. */
  ghost function BatchChecks(b: Mailbox, ackSeq: Num, k: nat): nat
  {
    var n := |Victims(b, ackSeq, k)|;
    if n < k && n < |b.msgs| then n + 1 else n
  }

  /**
   The batches of an acknowledgement whose context passes `left` more checks. When it ends, the
   batch at hand is dropped, but its deletions so far are reported.
   */
  ghost function AckWithin(b: Mailbox, ackSeq: Num, k: nat, start: Num, until: Num, count: nat, left: nat)
    : (Mailbox, AckOutcome)
    requires k >= 1
    decreases Due(b, ackSeq)
  {
    var vs := Victims(b, ackSeq, k);
    if left < BatchChecks(b, ackSeq, k) then
      (b, Cancelled(if left == 0 then until else vs[left - 1], count + left))
    else if vs == [] then
      if until < ackSeq then (AckBatch(b, ackSeq, k, start), Acked(ackSeq, count))
      else (b, Acked(until, count))
    else
      var b' := AckBatch(b, ackSeq, k, start);
      AckBatchShrinks(b, ackSeq, k, start);
      if |vs| < k || Last(vs) >= ackSeq then (b', Acked(Last(vs), count + |vs|))
      else AckWithin(b', ackSeq, k, start, Last(vs), count + |vs|, left - |vs|)
  }

  /** An acknowledgement whose context passes `budget` checks. */
  ghost function AckUnder(b: Mailbox, ackSeq: Num, k: nat, budget: nat): (Mailbox, AckOutcome)
    requires k >= 1
  {
    if budget == 0 then (b, Cancelled(0, 0))
    else if ackSeq <= b.acked then (b, Acked(b.acked, 0))
    else if ackSeq > b.delivered then (b, BeyondDelivered(b.acked))
    else AckWithin(b, ackSeq, k, b.acked, b.acked, 0, budget - 1)
  }

  /***** Collect expired *****/

  /** The locked deletion of one scanned reference. */
  function Collect(b: Mailbox, e: int, n: Num): Mailbox
  {
    if n in b.msgs then
      var id := b.msgs[n].envelope.msgId;
      b.(msgs := b.msgs - {n}, dup := if id != [] then b.dup - {id} else b.dup, exp := b.exp - {ExpEntry(e, n)})
    else
      b.(exp := b.exp - {ExpEntry(e, n)})
  }
}

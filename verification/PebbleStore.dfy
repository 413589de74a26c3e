/**
 The message store as it runs on the flat byte-key database.

 A batch is modelled by the database that committing it leaves. The clock is an argument, and
 `budget` is the number of times the context still reports no error.
 */
module PebbleStore {
  import opened ByteOrder
  import opened Options
  import opened Ascending
  import opened Decimal
  import opened Keys
  import opened Mailboxes
  import opened FlatStore
  import opened Batches

  function NumberText(n: Num): Value
    requires IsUint64(n)
  {
    Text(FormatUint(n))
  }

  function ValueLength(v: Value, size: Sizer): nat
  {
    match v
    case Json(m) => size(m)
    case Text(t) => |t|
  }

  class Store {
    var db: Db
    ghost var world: World
    const ackDeleteBatch: nat
    const size: Sizer

    ghost predicate Valid()
      reads this
    {
      ackDeleteBatch >= 1 && Agree(db, world)
    }

    constructor (ackDeleteBatch: nat, size: Sizer)
      requires ackDeleteBatch >= 1
      ensures Valid() && world == map[] && this.ackDeleteBatch == ackDeleteBatch && this.size == size
    {
      this.db := map[];
      this.world := map[];
      this.ackDeleteBatch := ackDeleteBatch;
      this.size := size;
      EmptyAgrees();
    }

    /** A snapshot iterator, as the list of the keys it will visit. */
    method NewIter(lo: Bytes, hi: Bytes) returns (keys: seq<Bytes>)
      ensures IsScan(keys, db.Keys, lo, hi)
    {
      keys := Scan(db.Keys, lo, hi);
    }

    /** `lastSeq` and `frontier`: a counter that was never written is zero. */
    method Counter(k: Key) returns (n: Num)
      requires Valid() && ValidKey(k) && IsCounter(k)
      ensures Lookup(Box(world, k.r), k) == Some(Number(n)) && IsUint64(n)
    {
      assert Slot(db, k, Lookup(Box(world, k.r), k));
      hide Agree, Encode, FormatUint;
      if Encode(k) in db {
        ghost var c := Lookup(Box(world, k.r), k).value;
        ParseFormat(c.n);
        n := ParseUint(db[Encode(k)].text).value;
      } else {
        n := 0;
      }
    }

    method LoadDup(r: Bytes, id: Bytes) returns (n: Option<Num>)
      requires Valid() && SlashFree(r)
      ensures var b := Box(world, r); n == if id in b.dup then Some(b.dup[id]) else None
      ensures n.Some? ==> IsUint64(n.value)
    {
      var k := DupK(r, id);
      assert Slot(db, k, Lookup(Box(world, r), k));
      hide Agree, Encode, FormatUint;
      if Encode(k) in db {
        ghost var c := Lookup(Box(world, r), k).value;
        ParseFormat(c.n);
        n := Some(ParseUint(db[Encode(k)].text).value);
      } else {
        n := None;
      }
    }

    method LoadMessage(r: Bytes, n: Num) returns (m: Option<StoredMessage>)
      requires Valid() && SlashFree(r) && IsUint64(n)
      ensures var b := Box(world, r); m == if n in b.msgs then Some(StoredMessage(n, b.msgs[n])) else None
    {
      var k := MsgK(r, n);
      assert Slot(db, k, Lookup(Box(world, r), k));
      hide Agree, Encode;
      m := if Encode(k) in db then Some(db[Encode(k)].message) else None;
    }

    /** Count and stored bytes of a recipient's messages. */
    method Usage(r: Bytes) returns (count: nat, total: nat)
      requires Valid() && SlashFree(r)
      ensures count == |Box(world, r).msgs| && total == TotalBytes(Box(world, r).msgs, size)
    {
      hide Agree, Asc, TotalBytes, MsgKey, MsgPrefix, Elements, Increasing, PrefixUpperBound;
      var keys := NewIter(MsgPrefix(r), PrefixUpperBound(MsgPrefix(r)));
      ghost var b := Box(world, r);
      ghost var ns := Asc(b.msgs.Keys);
      WholeScan(db, world, r, keys);
      count, total := 0, 0;
      RestIsEverything(b, ns);
      while count < |keys|
        invariant count <= |keys|
        invariant total + TotalBytes(b.msgs - Elements(ns[..count]), size) == TotalBytes(b.msgs, size)
      {
        MsgValue(db, world, r, ns[count]);
        RestBytes(b, ns, count, size);
        total := total + ValueLength(db[keys[count]], size);
        count := count + 1;
      }
      RestIsNothing(b, count, size);
    }

    /** The dedup loop: a live duplicate's number, or none once any stale entry is gone. */
    method ResolveDuplicate(r: Bytes, id: Bytes) returns (existing: Option<StoredMessage>, ghost passes: nat)
      requires Valid() && SlashFree(r)
      modifies this
      ensures Valid() && passes <= 2
      ensures var b := Box(old(world), r);
              if IsDuplicate(b, id)
              then existing == Some(StoredMessage(b.dup[id], b.msgs[b.dup[id]])) && world == old(world) && db == old(db)
              else existing == None && world == old(world)[r := b.(dup := b.dup - {id})]
    {
      passes := 0;
      ghost var b := Box(world, r);
      while true
        invariant Valid()
        invariant passes == 0 ==> world == old(world) && db == old(db)
        invariant passes <= 1
        invariant passes == 1 ==> !IsDuplicate(b, id) && world == old(world)[r := b.(dup := b.dup - {id})]
        decreases 1 - passes
      {
        passes := passes + 1;
        var n := LoadDup(r, id);
        if n == None {
          existing := None;
          assert b.dup - {id} == Box(world, r).dup;
          if passes == 1 {
            TouchAgrees(db, world, r);
            world := world[r := b.(dup := b.dup - {id})];
          }
          return;
        }
        existing := LoadMessage(r, n.value);
        if existing.Some? {
          return;
        }
        EraseDup(db, world, r, id);
        db := db - {DupKey(r, id)};
        world := world[r := Box(world, r).(dup := Box(world, r).dup - {id})];
      }
    }

    method CheckQuota(r: Bytes, m: StoredMessage, quota: Option<Quota>) returns (reply: StoreReply)
      requires Valid() && SlashFree(r)
      ensures reply == Admit(Box(world, r), m, quota, size)
    {
      if quota.Some? {
        var count, total := Usage(r);
        if quota.value.maxMessages > 0 && count >= quota.value.maxMessages {
          return QuotaExceeded;
        }
        if quota.value.maxBytes > 0 && total + size(m) > quota.value.maxBytes {
          return BytesExceeded;
        }
      }
      reply := Mailboxes.Stored(m.storeSeq, m.entry.expireAt);
    }

    /** Stores a message unless its id is live or a limit is reached; see `Mailboxes.Store`. */
    method StoreMessage(msg: Option<Envelope>, quota: Option<Quota>, now: int) returns (reply: StoreReply)
      requires Valid()
      requires msg.Some? ==> SlashFree(msg.value.recipientId)
      modifies this
      ensures Valid()
      ensures msg.None? ==> reply == InvalidPayload && db == old(db) && world == old(world)
      ensures msg.Some? ==>
                var r := msg.value.recipientId;
                var spec := Mailboxes.Store(Box(old(world), r), msg.value, now, quota, size);
                reply == spec.1 && world == old(world)[r := spec.0]
    {
      hide Agree, MsgKey, DupKey, ExpKey, SeqKey, FormatUint, TotalBytes;
      if msg == None {
        return InvalidPayload;
      }
      var env := msg.value;
      var r := env.recipientId;
      ghost var b := Box(world, r);
      BoxWellFormed(db, world, r);
      var existing, _ := ResolveDuplicate(r, env.msgId);
      if existing.Some? {
        reply := Duplicate(existing.value.storeSeq, existing.value.entry.expireAt);
        assert r in world;
        assert world[r := b] == world;
        return;
      }
      ghost var clean := b.(dup := b.dup - {env.msgId});
      assert Box(world, r) == clean;
      var last := Counter(SeqK(r));
      var m := StoredMessage(NextSeq(last), NewEntry(env, now));
      reply := CheckQuota(r, m, quota);
      if !reply.Stored? {
        return;
      }
      var batch := db[MsgKey(r, m.storeSeq) := Json(m)];
      batch := batch[DupKey(r, env.msgId) := NumberText(m.storeSeq)];
      batch := batch[ExpKey(m.entry.expireAt, r, m.storeSeq) := Text([])];
      batch := batch[SeqKey(r) := NumberText(m.storeSeq)];
      InsertAgrees(db, world, r, m);
      SetTwice(old(world), r, clean, Insert(clean, m));
      db := batch;
      world := world[r := Insert(clean, m)];
    }

    /** The first `limit` unexpired messages above `after`; see `Mailboxes.Fetch`. */
    method FetchMessages(r: Bytes, after: Num, limit: int, now: int) returns (page: Page)
      requires Valid() && SlashFree(r) && IsUint64(after)
      ensures page == Fetch(Box(world, r), after, limit, now)
    {
      hide Agree, Asc, Kept, MsgKey, MsgPrefix, Listing;
      if limit <= 0 {
        return Page([], false);
      }
      var keys := NewIter(MsgKey(r, NextSeq(after)), PrefixUpperBound(MsgPrefix(r)));
      ghost var b := Box(world, r);
      ghost var ns := Asc(From(b, NextSeq(after)));
      MsgScan(db, world, r, MsgKey(r, NextSeq(after)), NextSeq(after), keys);
      FromIsStored(b, NextSeq(after));
      var items: seq<StoredMessage> := [];
      var i := 0;
      KeptNone(b, ns, now);
      while i < |keys|
        invariant i <= |keys| == |ns|
        invariant items == Kept(b, ns[..i], now) && |items| <= limit
      {
        MsgValue(db, world, r, ns[i]);
        var stored := db[keys[i]].message;
        KeptStep(b, ns, now, i);
        if stored.entry.expireAt > now {
          if |items| >= limit {
            PageComplete(b, after, limit, now, i);
            return Page(items, true);
          }
          items := items + [stored];
        }
        i := i + 1;
      }
      PageComplete(b, after, limit, now, i);
      page := Page(items, false);
    }

    /** Moves the delivered frontier over contiguous messages; see `Mailboxes.Mark`. */
    method MarkDelivered(r: Bytes, items: seq<StoredMessage>, now: int)
      requires Valid() && SlashFree(r)
      modifies this
      ensures Valid() && world == old(world)[r := Mark(Box(old(world), r), items, now)]
    {
      hide Agree, Asc, MsgKey, MsgPrefix, Advance, FormatUint;
      ghost var b := Box(world, r);
      BoxWellFormed(db, world, r);
      TouchAgrees(db, world, r);
      world := world[r := b];
      if items == [] {
        return;
      }
      var current := Counter(DeliveredK(r));
      var delivered := DeliveredSet(items);
      var f := Frontier(r, current, delivered, now);
      if f == current {
        return;
      }
      PutDelivered(db, world, r, f);
      SetTwice(old(world), r, b, b.(delivered := f));
      db := db[DeliveredKey(r) := NumberText(f)];
      world := world[r := b.(delivered := f)];
    }

    static method DeliveredSet(items: seq<StoredMessage>) returns (delivered: set<Num>)
      ensures delivered == Seqs(items)
    {
      delivered := {};
      for i := 0 to |items|
        invariant delivered == Seqs(items[..i])
      {
        assert items[..i + 1] == items[..i] + [items[i]];
        SeqsAppend(items[..i], items[i]);
        delivered := delivered + {items[i].storeSeq};
      }
      assert items[..|items|] == items;
    }

    /** The iterator loop of mark-delivered. */
    method Frontier(r: Bytes, current: Num, delivered: set<Num>, now: int) returns (f: Num)
      requires Valid() && SlashFree(r) && IsUint64(current)
      ensures f == NewFrontier(Box(world, r), now, delivered, current) && IsUint64(f)
    {
      hide Agree, Asc, MsgKey, MsgPrefix, Advance, Increasing, Contiguous, From;
      var next := NextSeq(current);
      var keys := NewIter(MsgKey(r, next), PrefixUpperBound(MsgPrefix(r)));
      ghost var b, lo := Box(world, r), next;
      ghost var ns := Asc(From(b, lo));
      MsgScan(db, world, r, MsgKey(r, lo), lo, keys);
      FromIsStored(b, lo);
      NoStretch(ns, lo);
      f := current;
      var i := 0;
      while i < |keys|
        invariant i <= |keys| && Contiguous(ns, lo, i) && next == Wrapped(lo + i)
        invariant f == (if i == 0 then current else lo + i - 1) && IsUint64(f)
        invariant Advance(b, now, delivered, lo - 1) == Advance(b, now, delivered, lo + i - 1)
      {
        MsgValue(db, world, r, ns[i]);
        StretchGoesOn(db, world, r, lo, i);
        var stored := db[keys[i]].message;
        if stored.storeSeq != next {
          break;
        }
        if stored.entry.expireAt > now && stored.storeSeq !in delivered {
          break;
        }
        AdvanceSteps(b, now, delivered, lo + i - 1);
        f := stored.storeSeq;
        next := NextSeq(next);
        i := i + 1;
      }
      StretchGoesOn(db, world, r, lo, i);
      AdvanceStops(b, now, delivered, lo + i - 1);
    }

    /** The inner loop of an acknowledgement: one batch of deletions, not yet committed. */
    method DeleteBatch(r: Bytes, ackSeq: Num, budget: nat)
      returns (batch: Db, until: Num, deleted: nat, left: nat, cancelled: bool)
      requires Valid() && SlashFree(r)
      ensures var b := Box(world, r);
              var vs := Victims(b, ackSeq, ackDeleteBatch);
              var checks := BatchChecks(b, ackSeq, ackDeleteBatch);
              && (cancelled <==> budget < checks)
              && deleted == (if cancelled then budget else |vs|)
              && deleted <= |vs| && (deleted > 0 ==> until == vs[deleted - 1] && IsUint64(until))
              && (!cancelled ==> left == budget - checks && Agree(batch, world[r := Remove(b, Elements(vs))]))
    {
      hide Agree, Asc, MsgKey, MsgPrefix, DupKey, ExpKey, Elements, Remove, Victims, Increasing, EraseKeys, Drop;
      batch, until, left, cancelled, deleted := db, 0, budget, false, 0;
      var keys := NewIter(MsgPrefix(r), PrefixUpperBound(MsgPrefix(r)));
      ghost var b := Box(world, r);
      ghost var ns := Asc(b.msgs.Keys);
      WholeScan(db, world, r, keys);
      RemoveNone(b);
      TouchAgrees(db, world, r);
      assert ns[..0] == [];
      while deleted < |keys|
        invariant deleted <= |keys| && deleted < ackDeleteBatch
        invariant forall j | 0 <= j < deleted :: ns[j] <= ackSeq
        invariant deleted > 0 ==> until == ns[deleted - 1] && IsUint64(until)
        invariant left == budget - deleted
        invariant Agree(batch, world[r := Remove(b, Elements(ns[..deleted]))])
      {
        if left == 0 {
          cancelled := true;
          CutBatch(b, ackSeq, ackDeleteBatch, deleted);
          return;
        }
        left := left - 1;
        ghost var n := ns[deleted];
        MsgValue(db, world, r, n);
        ParseMsgKeyInverse(r, n);
        var storeSeq := ParseMsgKey(keys[deleted]).value.1;
        if storeSeq > ackSeq {
          break;
        }
        var stored := db[keys[deleted]].message;
        ExpiryFits(db, world, r, n);
        RemoveStep(b, ns, deleted);
        EraseKeysAgrees(batch, world[r := Remove(b, Elements(ns[..deleted]))], r, n, stored.entry);
        SetTwice(world, r, Remove(b, Elements(ns[..deleted])), Remove(b, Elements(ns[..deleted + 1])));
        batch := EraseKeys(batch, r, storeSeq, stored.entry);
        until := storeSeq;
        deleted := deleted + 1;
        if deleted >= ackDeleteBatch {
          break;
        }
      }
      BatchIsVictims(b, ackSeq, ackDeleteBatch, deleted);
    }

    /**
     Deletes the messages up to `ackSeq`, one committed batch at a time; see `Mailboxes.AckUnder`.
     When the context ends first, the batches committed so far stay.
     */
    method AckMessages(r: Bytes, ackSeq: Num, budget: nat) returns (outcome: AckOutcome)
      requires Valid() && SlashFree(r) && IsUint64(ackSeq)
      modifies this
      ensures Valid()
      ensures var spec := AckUnder(Box(old(world), r), ackSeq, ackDeleteBatch, budget);
              outcome == spec.1 && world == old(world)[r := spec.0]
    {
      hide Agree, Asc, AckWithin, BatchChecks, AckBatch, Victims, Remove, FormatUint, AckedKey, Elements;
      ghost var b := Box(world, r);
      TouchAgrees(db, world, r);
      world := world[r := b];
      if budget == 0 {
        return Cancelled(0, 0);
      }
      var start := Counter(AckedK(r));
      if ackSeq <= start {
        return Acked(start, 0);
      }
      var delivered := Counter(DeliveredK(r));
      if ackSeq > delivered {
        return BeyondDelivered(start);
      }
      var until: Num := start;
      var count: nat := 0;
      var left: nat := budget - 1;
      ghost var now := b;
      while true
        invariant Valid() && world == old(world)[r := now]
        invariant AckWithin(b, ackSeq, ackDeleteBatch, start, start, 0, budget - 1)
               == AckWithin(now, ackSeq, ackDeleteBatch, start, until, count, left)
        decreases Due(now, ackSeq)
      {
        AckWithinCases(now, ackSeq, ackDeleteBatch, start, until, count, left);
        var batch, last, deleted, rest, cancelled := DeleteBatch(r, ackSeq, left);
        if cancelled {
          return Cancelled(if deleted == 0 then until else last, count + deleted);
        }
        left := rest;
        ghost var next := AckBatch(now, ackSeq, ackDeleteBatch, start);
        ghost var cut := Remove(now, Elements(Victims(now, ackSeq, ackDeleteBatch)));
        SetTwice(old(world), r, now, cut);
        SetTwice(old(world), r, cut, next);
        SetTwice(old(world), r, now, next);
        BatchCommits(now, ackSeq, ackDeleteBatch, start);
        if deleted == 0 {
          if until < ackSeq {
            PutAcked(batch, world[r := cut], r, ackSeq);
            db := batch[AckedKey(r) := NumberText(ackSeq)];
            world := world[r := next];
            until := ackSeq;
          }
          return Acked(until, count);
        }
        if last >= start {
          PutAcked(batch, world[r := cut], r, last);
          batch := batch[AckedKey(r) := NumberText(last)];
        }
        db := batch;
        world := world[r := next];
        until, count := last, count + deleted;
        if deleted < ackDeleteBatch || until >= ackSeq {
          return Acked(until, count);
        }
        AckBatchShrinks(now, ackSeq, ackDeleteBatch, start);
        now := next;
      }
    }

    /** The unlocked expiry scan; `due` is what it finds unless its context ends first. */
    method ScanExpired(now: int, limit: nat, budget: nat)
      returns (refs: seq<Ref>, left: nat, cancelled: bool, ghost due: seq<Ref>)
      requires Valid() && IsInt64(now) && limit >= 1
      ensures !cancelled ==> FirstDue(world, now, limit, refs)
      ensures FirstDue(world, now, limit, due)
      ensures cancelled <==> budget < ScanChecks(world, now, due)
      ensures !cancelled ==> refs == due && left == budget - ScanChecks(world, now, due)
    {
      hide Agree, ExpLowerBound, ExpUpperBound, RefKey, Less, ParseExpKey, InExpRange, FirstDue;
      var keys := NewIter(ExpLowerBound(), ExpUpperBound(now));
      due := DueOfScan(db, world, now, limit, keys);
      refs, left, cancelled := [], budget, false;
      while |refs| < |keys|
        invariant RefsOf(refs, keys, world, now) && |refs| < limit && left == budget - |refs|
        invariant StopsAtOnce(world, now) ==> refs == []
        decreases |keys| - |refs|
      {
        if left == 0 {
          cancelled := true;
          return;
        }
        left := left - 1;
        var key := keys[|refs|];
        assert key in keys;
        ExpScanHolds(db, world, now, key);
        var parsed := ParseExpKey(key).value;
        if parsed.0 > now {
          assert StopsAtOnce(world, now);
          return;
        }
        refs := refs + [Ref(parsed.0, parsed.1, parsed.2)];
        if |refs| >= limit {
          break;
        }
      }
      RefsUnique(db, world, now, keys, refs, due);
    }

    /** The locked deletion of one scanned reference; see `Mailboxes.Collect`. */
    method CollectRef(ref: Ref)
      requires Valid() && SlashFree(ref.r) && IsInt64(ref.expireAt) && IsUint64(ref.storeSeq)
      modifies this
      ensures Valid() && world == CollectIn(old(world), ref)
    {
      hide Agree, MsgKey, DupKey, ExpKey;
      var r := ref.r;
      ghost var b := Box(world, r);
      ghost var b1 := b;
      TouchAgrees(db, world, r);
      var batch := db;
      var stored := LoadMessage(r, ref.storeSeq);
      if stored.Some? {
        var id := stored.value.entry.envelope.msgId;
        EraseMsg(batch, world[r := b], r, ref.storeSeq);
        batch := batch - {MsgKey(r, ref.storeSeq)};
        b1 := b.(msgs := b.msgs - {ref.storeSeq});
        SetTwice(world, r, b, b1);
        if id != [] {
          EraseDup(batch, world[r := b1], r, id);
          batch := batch - {DupKey(r, id)};
          SetTwice(world, r, b1, b1.(dup := b.dup - {id}));
          b1 := b1.(dup := b.dup - {id});
        }
      }
      EraseExp(batch, world[r := b1], r, ref.expireAt, ref.storeSeq);
      batch := batch - {RefKey(ref)};
      SetTwice(world, r, b1, Collect(b, ref.expireAt, ref.storeSeq));
      db := batch;
      world := world[r := Collect(b, ref.expireAt, ref.storeSeq)];
    }

    /**
     One collection pass without interference: deletes the first `limit` due entries `refs`, or as
     many of them as its context lets it.
     */
    method DeleteExpired(now: int, limit: int, budget: nat)
      returns (deleted: nat, cancelled: bool, ghost refs: seq<Ref>)
      requires Valid() && IsInt64(now)
      modifies this
      ensures Valid() && deleted <= |refs| && world == CollectAll(old(world), refs[..deleted])
      ensures limit <= 0 ==> deleted == 0 && !cancelled && refs == []
      ensures limit > 0 ==>
                && FirstDue(old(world), now, limit, refs)
                && (cancelled <==> budget < PassChecks(old(world), now, refs))
                && deleted == PassDeletes(old(world), now, refs, budget)
    {
      hide Agree, FirstDue, CollectIn, ScanChecks;
      deleted, cancelled, refs := 0, false, [];
      CollectNothing(world, []);
      if limit <= 0 {
        return;
      }
      var found, left, stopped, due := ScanExpired(now, limit, budget);
      refs := due;
      CollectNothing(world, refs);
      if stopped {
        cancelled := true;
        return;
      }
      while deleted < |found|
        invariant Valid() && deleted <= |found|
        invariant left == budget - ScanChecks(old(world), now, refs) - deleted
        invariant world == CollectAll(old(world), refs[..deleted])
      {
        if left == 0 {
          cancelled := true;
          return;
        }
        left := left - 1;
        DueFits(old(db), old(world), now, limit, found, deleted);
        CollectRef(found[deleted]);
        CollectOneMore(old(world), refs, deleted);
        deleted := deleted + 1;
      }
    }
  }

  lemma CollectNothing(w: World, refs: seq<Ref>)
    ensures CollectAll(w, refs[..0]) == w
  {
  }

  lemma CollectOneMore(w: World, refs: seq<Ref>, i: nat)
    requires i < |refs|
    ensures CollectAll(w, refs[..i + 1]) == CollectIn(CollectAll(w, refs[..i]), refs[i])
  {
    assert refs[..i + 1][..i] == refs[..i];
  }

  lemma DueFits(db: Db, w: World, now: int, limit: int, refs: seq<Ref>, i: nat)
    requires Agree(db, w) && FirstDue(w, now, limit, refs) && i < |refs|
    ensures SlashFree(refs[i].r) && IsInt64(refs[i].expireAt) && IsUint64(refs[i].storeSeq)
  {
  }

  /** Every index entry of a well-formed mailbox has a representable expiry. */
  lemma ExpiryFits(db: Db, w: World, r: Bytes, n: Num)
    requires Agree(db, w) && n in Box(w, r).msgs
    ensures IsInt64(Box(w, r).msgs[n].expireAt)
  {
  }

  lemma BatchCommits(b: Mailbox, ackSeq: Num, k: nat, start: Num)
    ensures var vs := Victims(b, ackSeq, k);
            var cut := Remove(b, Elements(vs));
            AckBatch(b, ackSeq, k, start) ==
              if vs == [] then cut.(acked := ackSeq)
              else cut.(acked := if Last(vs) >= start then Last(vs) else cut.acked)
  {
  }

  lemma AckWithinCases(b: Mailbox, ackSeq: Num, k: nat, start: Num, until: Num, count: nat, left: nat)
    requires k >= 1
    ensures var vs := Victims(b, ackSeq, k);
            var b' := AckBatch(b, ackSeq, k, start);
            AckWithin(b, ackSeq, k, start, until, count, left) ==
              if left < BatchChecks(b, ackSeq, k) then
                (b, Cancelled(if left == 0 then until else vs[left - 1], count + left))
              else if vs == [] then
                if until < ackSeq then (b', Acked(ackSeq, count)) else (b, Acked(until, count))
              else if |vs| < k || Last(vs) >= ackSeq then (b', Acked(Last(vs), count + |vs|))
              else AckWithin(b', ackSeq, k, start, Last(vs), count + |vs|, left - BatchChecks(b, ackSeq, k))
  {
    hide AckBatch, Victims;
  }

  lemma NoStretch(ns: seq<Num>, lo: Num)
    ensures Contiguous(ns, lo, 0)
  {
  }

  lemma SeqsAppend(items: seq<StoredMessage>, m: StoredMessage)
    ensures Seqs(items + [m]) == Seqs(items) + {m.storeSeq}
  {
    var all := items + [m];
    assert forall i | 0 <= i < |items| :: all[i] == items[i];
    assert all[|items|] == m;
    forall n | n in Seqs(items) ensures n in Seqs(all) {
      var i :| 0 <= i < |items| && items[i].storeSeq == n;
      assert all[i].storeSeq == n;
    }
  }

  lemma SetTwice(w: World, r: Bytes, b: Mailbox, b': Mailbox)
    ensures w[r := b][r := b'] == w[r := b']
  {
  }

  /** The four writes of an accepted store. */
  lemma InsertAgrees(db: Db, w: World, r: Bytes, m: StoredMessage)
    requires Agree(db, w) && SlashFree(r) && IsUint64(m.storeSeq) && IsInt64(m.entry.expireAt)
    ensures var db1 := db[MsgKey(r, m.storeSeq) := Json(m)];
            var db2 := db1[DupKey(r, m.entry.envelope.msgId) := NumberText(m.storeSeq)];
            var db3 := db2[ExpKey(m.entry.expireAt, r, m.storeSeq) := Text([])];
            Agree(db3[SeqKey(r) := NumberText(m.storeSeq)], w[r := Insert(Box(w, r), m)])
  {
    hide Agree, MsgKey, DupKey, ExpKey, SeqKey, FormatUint;
    var b, n, id, e := Box(w, r), m.storeSeq, m.entry.envelope.msgId, m.entry.expireAt;
    var db1 := db[MsgKey(r, n) := Json(m)];
    var b1 := b.(msgs := b.msgs[n := m.entry]);
    PutMsg(db, w, r, m);
    var db2 := db1[DupKey(r, id) := NumberText(n)];
    var b2 := b1.(dup := b1.dup[id := n]);
    PutDup(db1, w[r := b1], r, id, n);
    assert w[r := b1][r := b2] == w[r := b2];
    var db3 := db2[ExpKey(e, r, n) := Text([])];
    var b3 := b2.(exp := b2.exp + {ExpEntry(e, n)});
    PutExp(db2, w[r := b2], r, e, n);
    assert w[r := b2][r := b3] == w[r := b3];
    PutLast(db3, w[r := b3], r, n);
    assert w[r := b3][r := b3.(last := n)] == w[r := b3.(last := n)];
  }
}

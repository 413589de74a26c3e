/** The collector's drain loop. */
module GcWorker {
  import opened ByteOrder
  import opened Ascending
  import opened Decimal
  import opened Mailboxes
  import opened MailboxLaws
  import opened FlatStore
  import opened Batches
  import opened PebbleStore
  import opened Ledger

  /** Every message that is gone had expired at the clock reading of some pass; the others are unchanged. */
  ghost predicate OnlyExpiredRemoved(w: World, w': World, clock: nat -> int, scans: nat)
  {
    forall r, n | n in Box(w, r).msgs ::
      || (n in Box(w', r).msgs && Box(w', r).msgs[n] == Box(w, r).msgs[n])
      || ExpiredBy(Box(w, r).msgs[n].expireAt, clock, scans)
  }

  ghost predicate ExpiredBy(expireAt: int, clock: nat -> int, scans: nat)
  {
    exists i: nat :: i < scans && expireAt <= clock(i)
  }

  lemma LiveIsNatural(w: World)
    ensures Live(w) >= 0
  {
    SumIsNatural(w);
  }

  lemma {:induction false} SumIsNatural(w: World)
    ensures Sum(w, (b: Mailbox) => |b.msgs|) >= 0
    decreases |w.Keys|
  {
    if w.Keys == {} {
    } else {
      var r :| r in w.Keys;
      SumRemove(w, r, (b: Mailbox) => |b.msgs|);
      SumIsNatural(w - {r});
    }
  }

  lemma PassRemovesExpired(w: World, now: int, refs: seq<Ref>, r: Bytes, n: Num)
    requires WorldConsistent(w) && AllDue(w, now, refs) && n in Box(w, r).msgs
    ensures var b' := Box(CollectAll(w, refs), r);
            (n in b'.msgs && b'.msgs[n] == Box(w, r).msgs[n]) || Box(w, r).msgs[n].expireAt <= now
  {
    BoxConsistent(w, r);
    CollectAllExact(w, now, refs, r);
    hide CollectAll;
    if n in Gone(refs, r) {
      var i :| 0 <= i < |refs| && refs[i].r == r && refs[i].storeSeq == n;
      assert IsDue(w, now, refs[i]);
    }
  }

  lemma MorePasses(w0: World, w: World, clock: nat -> int, scans: nat, refs: seq<Ref>)
    requires WorldConsistent(w) && AllDue(w, clock(scans), refs) && OnlyExpiredRemoved(w0, w, clock, scans)
    ensures OnlyExpiredRemoved(w0, CollectAll(w, refs), clock, scans + 1)
  {
    hide CollectAll, Consistent, Box;
    var w' := CollectAll(w, refs);
    forall r, n | n in Box(w0, r).msgs
      ensures || (n in Box(w', r).msgs && Box(w', r).msgs[n] == Box(w0, r).msgs[n])
              || ExpiredBy(Box(w0, r).msgs[n].expireAt, clock, scans + 1)
    {
      if ExpiredBy(Box(w0, r).msgs[n].expireAt, clock, scans) {
        var i: nat :| i < scans && Box(w0, r).msgs[n].expireAt <= clock(i);
        assert i < scans + 1;
      } else {
        PassRemovesExpired(w, clock(scans), refs, r, n);
        assert scans < scans + 1;
      }
    }
  }

  lemma UnexpiredIn(db: Db, w: World, now: int)
    requires Agree(db, w) && IsInt64(now) && Keys.Regular(now)
    ensures Drained(w, now) <==> NothingExpired(w, now)
  {
    DrainedMeansUnexpired(w, now);
  }

  /** Pass `i` leads from `w` to `w'`: it finds as many due references as it may and deletes them all. */
  ghost predicate FullPass(w: World, w': World, limit: int, clock: nat -> int, budget: nat -> nat, i: nat,
                           refs: seq<Ref>)
  {
    && FirstDue(w, clock(i), limit, refs) && |refs| == limit && PassChecks(w, clock(i), refs) <= budget(i)
    && w' == CollectAll(w, refs)
  }

  /** The first `n` passes are full and lead from `w` to `w'`. */
  ghost predicate FullPasses(w: World, w': World, limit: int, clock: nat -> int, budget: nat -> nat, n: nat)
    decreases n
  {
    if n == 0 then w' == w else
      var i: nat := n - 1;
      exists u, refs :: FullPass(u, w', limit, clock, budget, i, refs) && FullPasses(w, u, limit, clock, budget, i)
  }

  /** Every full pass deletes a whole batch. */
  lemma {:induction false} FullPassesCount(w: World, w': World, limit: int, clock: nat -> int, budget: nat -> nat,
                                           n: nat)
    requires WorldConsistent(w) && limit >= 1 && FullPasses(w, w', limit, clock, budget, n)
    ensures WorldConsistent(w') && Live(w') == Live(w) - n * limit
    decreases n
  {
    hide Consistent, Live, FirstDue, CollectAll;
    if n == 0 {
    } else {
      var u, refs :|
        FullPass(u, w', limit, clock, budget, n - 1, refs) && FullPasses(w, u, limit, clock, budget, n - 1);
      FullPassesCount(w, u, limit, clock, budget, n - 1);
      PassKeeps(u, clock(n - 1), limit, refs, |refs|);
      assert refs[..|refs|] == refs;
      assert n * limit == (n - 1) * limit + limit;
    }
  }

  /**
   Collects in passes of `batchSize` until a pass is not full. `clock(i)` is the time read for
   pass `i`, and `budget(i)` how many checks its context passes. The last pass starts from `last`
   and finds `due`.
   */
  method RunOnce(store: Store, batchSize: int, clock: nat -> int, budget: nat -> nat)
    returns (totalDeleted: nat, scans: nat, failed: bool, ghost last: World, ghost due: seq<Ref>)
    requires store.Valid() && WorldConsistent(store.world)
    requires forall i: nat :: IsInt64(clock(i))
    modifies store
    ensures store.Valid() && WorldConsistent(store.world)
    ensures scans >= 1
    ensures OnlyExpiredRemoved(old(store.world), store.world, clock, scans)
    ensures batchSize <= 0 ==> !failed && totalDeleted == 0 && store.world == old(store.world)
    ensures batchSize >= 1 ==>
              var now, checks := clock(scans - 1), budget(scans - 1);
              && FullPasses(old(store.world), last, batchSize, clock, budget, scans - 1)
              && FirstDue(last, now, batchSize, due)
              && store.world == CollectAll(last, due[..PassDeletes(last, now, due, checks)])
              && (failed <==> checks < PassChecks(last, now, due))
              && (!failed ==> |due| < batchSize)
              && totalDeleted == Live(old(store.world)) - Live(last) + if failed then 0 else |due|
    ensures failed ==> budget(scans - 1) < 2 * batchSize
    ensures !failed ==> totalDeleted == Live(old(store.world)) - Live(store.world)
    ensures !failed ==> Assigned(store.world) == Assigned(old(store.world))
    ensures !failed && batchSize >= 1 ==> Drained(store.world, clock(scans - 1))
    ensures !failed && batchSize >= 1 && Keys.Regular(clock(scans - 1)) ==>
              NothingExpired(store.world, clock(scans - 1))
    ensures batchSize >= 1 && (forall i: nat :: budget(i) >= 2 * batchSize) ==>
              !failed && Drained(store.world, clock(scans - 1))
  {
    hide Agree, Live, Assigned, Consistent, FirstDue, CollectAll, Drained, NothingExpired, PassChecks, FullPasses;
    totalDeleted, scans, failed := 0, 0, false;
    last, due := store.world, [];
    NoPasses(store.world, batchSize, clock, budget);
    while true
      invariant store.Valid() && WorldConsistent(store.world) && last == store.world
      invariant OnlyExpiredRemoved(old(store.world), store.world, clock, scans)
      invariant totalDeleted == Live(old(store.world)) - Live(store.world)
      invariant Assigned(store.world) == Assigned(old(store.world))
      invariant batchSize <= 0 ==> scans == 0 && totalDeleted == 0 && store.world == old(store.world)
      invariant batchSize >= 1 ==> FullPasses(old(store.world), last, batchSize, clock, budget, scans)
      decreases Live(store.world)
    {
      LiveIsNatural(last);
      var now := clock(scans);
      scans := scans + 1;
      var deleted, cancelled, refs := store.DeleteExpired(now, batchSize, budget(scans - 1));
      due := refs;
      PassFound(last, now, batchSize, refs);
      PassKeeps(last, now, batchSize, refs, deleted);
      RefsDue(last, now, batchSize, refs, deleted);
      MorePasses(old(store.world), last, clock, scans - 1, refs[..deleted]);
      if cancelled {
        failed := true;
        return;
      }
      assert refs[..|refs|] == refs;
      totalDeleted := totalDeleted + deleted;
      if deleted == 0 || deleted < batchSize {
        if batchSize >= 1 {
          ShortPassDrains(last, now, batchSize, refs);
          if Keys.Regular(now) { UnexpiredIn(store.db, store.world, now); }
        } else {
          NothingCollected(last);
        }
        return;
      }
      AddPass(old(store.world), last, store.world, batchSize, clock, budget, scans - 1, refs);
      last := store.world;
    }
  }

  lemma NoPasses(w: World, limit: int, clock: nat -> int, budget: nat -> nat)
    ensures FullPasses(w, w, limit, clock, budget, 0)
  {
  }

  lemma AddPass(w: World, u: World, w': World, limit: int, clock: nat -> int, budget: nat -> nat, i: nat,
                refs: seq<Ref>)
    requires FullPasses(w, u, limit, clock, budget, i) && FullPass(u, w', limit, clock, budget, i, refs)
    ensures FullPasses(w, w', limit, clock, budget, i + 1)
  {
  }

  lemma NothingCollected(w: World)
    ensures CollectAll(w, []) == w
  {
  }

  /** What a pass finds takes at most two checks for each reference that it may find. */
  lemma PassFound(w: World, now: int, limit: int, refs: seq<Ref>)
    requires limit > 0 ==> FirstDue(w, now, limit, refs)
    ensures limit > 0 ==> |refs| <= limit && PassChecks(w, now, refs) <= 2 * limit
  {
    if limit > 0 { PassChecksBound(w, now, limit, refs); }
  }
}

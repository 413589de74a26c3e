/**
 The message store under concurrent use: every interleaving of the steps that the per-recipient
 locks leave atomic, with a history of what was assigned, handed over and collected.

 Stores, marks and single batches of an acknowledgement are atomic because they hold the
 recipient's lock. A fetch and an expiry scan read a snapshot without a lock, and what they read
 is acted on by a later step.
 */
module Runs {
  import opened ByteOrder
  import opened Options
  import opened Ascending
  import opened Decimal
  import opened Mailboxes
  import opened MailboxLaws

  /**
   A recipient's mailbox and its history: every entry ever stored (`log[n - 1]` under number `n`),
   the fetch results handed out, the numbers in results passed to mark-delivered and the clock
   readings taken there, the references collected by expiry scans, and the numbers removed by
   acknowledgements and by collection.
   */
  datatype Node = Node(
    box: Mailbox,
    log: seq<Entry>,
    fetched: set<seq<StoredMessage>>,
    marked: set<Num>,
    marks: set<Num>,
    refs: set<ExpEntry>,
    ackRemoved: set<Num>,
    gcRemoved: set<Num>)

  const NEW_NODE := Node(EMPTY, [], {}, {}, {}, {}, {}, {})

  /** All recipients, and every clock reading taken by an expiry scan. */
  datatype System = System(nodes: map<Bytes, Node>, clocks: set<Num>)

  const START := System(map[], {})

  function At(s: System, r: Bytes): Node
  {
    if r in s.nodes then s.nodes[r] else NEW_NODE
  }

  datatype Step =
    | StoreStep(r: Bytes, env: Envelope, now: Num, quota: Option<Quota>)
    | FetchStep(r: Bytes, after: Num, limit: int, now: Num)
    | MarkStep(r: Bytes, items: seq<StoredMessage>, now: Num)
    | AckStep(r: Bytes, ackSeq: Num, batch: nat, start: Num)
    | ScanStep(now: Num, found: map<Bytes, set<ExpEntry>>)
    | CollectStep(r: Bytes, due: ExpEntry)

  /** The references that an expiry scan at `now` may return for a recipient. */
  ghost predicate Scannable(b: Mailbox, now: Num, refs: set<ExpEntry>)
  {
    forall e | e in refs :: e in b.exp && e.expireAt <= now
  }

  /** What a step needs of a recipient that it acts on. */
  ghost predicate Enabled(node: Node, step: Step, r: Bytes)
    requires r in Touched(step)
  {
    match step
    case StoreStep(_, env, _, _) => env.msgId != [] && node.box.last < MAX_UINT64
    case FetchStep(_, _, _, _) => true
    case MarkStep(_, items, _) => items in node.fetched
    case AckStep(_, ackSeq, batch, start) => AckAccepted(node.box, ackSeq) && start <= node.box.acked && batch >= 1
    case ScanStep(now, found) => Scannable(node.box, now, found[r])
    case CollectStep(_, due) => due in node.refs
  }

  function Touched(step: Step): set<Bytes>
  {
    if step.ScanStep? then step.found.Keys else {step.r}
  }

  ghost function StoreNode(node: Node, env: Envelope, now: Num, quota: Option<Quota>, size: Sizer): Node
  {
    var (box, reply) := Store(node.box, env, now, quota, size);
    node.(box := box, log := if reply.Stored? then node.log + [NewEntry(env, now)] else node.log)
  }

  /** Marking an empty page returns before it reads the clock. */
  ghost function MarkNode(node: Node, items: seq<StoredMessage>, now: Num): Node
  {
    node.(box := Mark(node.box, items, now), marked := node.marked + Seqs(items),
          marks := node.marks + if items == [] then {} else {now})
  }

  /** One batch of an acknowledgement that found the acked frontier at `start`. */
  ghost function AckNode(node: Node, ackSeq: Num, batch: nat, start: Num): Node
  {
    node.(box := AckBatch(node.box, ackSeq, batch, start),
          ackRemoved := node.ackRemoved + Elements(Victims(node.box, ackSeq, batch)))
  }

  ghost function CollectNode(node: Node, due: ExpEntry): Node
  {
    node.(box := Collect(node.box, due.expireAt, due.storeSeq),
          gcRemoved := node.gcRemoved + if due.storeSeq in node.box.msgs then {due.storeSeq} else {})
  }

  ghost function ScanNode(node: Node, found: set<ExpEntry>): Node
  {
    node.(refs := node.refs + found)
  }

  ghost function FetchNode(node: Node, after: Num, limit: int, now: Num): Node
  {
    node.(fetched := node.fetched + {Fetch(node.box, after, limit, now).items})
  }

  /** What a step does to a recipient that it acts on. */
  ghost function Act(node: Node, step: Step, r: Bytes, size: Sizer): Node
    requires r in Touched(step)
  {
    match step
    case StoreStep(_, env, now, quota) => StoreNode(node, env, now, quota, size)
    case FetchStep(_, after, limit, now) => FetchNode(node, after, limit, now)
    case MarkStep(_, items, now) => MarkNode(node, items, now)
    case AckStep(_, ackSeq, batch, start) => AckNode(node, ackSeq, batch, start)
    case ScanStep(now, found) => ScanNode(node, found[r])
    case CollectStep(_, due) => CollectNode(node, due)
  }

  /** The clock readings of a step that concern every recipient. */
  function Readings(step: Step): set<Num>
  {
    if step.ScanStep? then {step.now} else {}
  }

  /** The clock readings that can count a recipient's message as expired: those of its own marks and of all scans. */
  function ClocksOf(node: Node, clocks: set<Num>): set<Num>
  {
    node.marks + clocks
  }

  ghost predicate Possible(s: System, step: Step)
  {
    forall r | r in Touched(step) :: Enabled(At(s, r), step, r)
  }

  ghost function Next(s: System, step: Step, size: Sizer): System
  {
    System(
      map r | r in s.nodes.Keys + Touched(step) ::
        if r in Touched(step) then Act(At(s, r), step, r, size) else At(s, r),
      s.clocks + Readings(step))
  }

  /***** The invariant *****/

  /** The message was in a result given to mark-delivered, or its time had passed at a clock reading. */
  ghost predicate Accounted(log: seq<Entry>, marked: set<Num>, clocks: set<Num>, n: Num)
    requires 1 <= n <= |log|
  {
    n in marked || Expired(log[n - 1].expireAt, clocks)
  }

  ghost predicate Expired(expireAt: int, clocks: set<Num>)
  {
    exists t :: t in clocks && expireAt <= t
  }

  ghost predicate LogAgrees(b: Mailbox, log: seq<Entry>)
  {
    && |log| == b.last
    && (forall n | n in b.msgs :: 1 <= n <= |log| && b.msgs[n] == log[n - 1])
  }

  /** Everything up to the delivered frontier, and everything that is gone, is accounted for. */
  ghost predicate Settled(b: Mailbox, log: seq<Entry>, marked: set<Num>, clocks: set<Num>)
  {
    forall n: Num | 1 <= n <= |log| && (n <= b.delivered || n !in b.msgs) :: Accounted(log, marked, clocks, n)
  }

  /** A scanned reference names a message by number and expiry, and that expiry has passed. */
  ghost predicate RefsValid(refs: set<ExpEntry>, log: seq<Entry>, clocks: set<Num>)
  {
    forall e | e in refs ::
      1 <= e.storeSeq <= |log| && log[e.storeSeq - 1].expireAt == e.expireAt && Expired(e.expireAt, clocks)
  }

  ghost predicate FromLog(items: seq<StoredMessage>, log: seq<Entry>)
  {
    forall i | 0 <= i < |items| ::
      1 <= items[i].storeSeq <= |log| && items[i].entry == log[items[i].storeSeq - 1]
  }

  /** The number is in some fetch result. */
  ghost predicate Handed(fetched: set<seq<StoredMessage>>, n: Num)
  {
    exists items :: items in fetched && Holds(items, n)
  }

  /**
   Recipients are only ever handed messages that were stored for them, as they were stored, and
   only what they were handed is marked.
   */
  ghost predicate FetchesValid(fetched: set<seq<StoredMessage>>, marked: set<Num>, log: seq<Entry>)
  {
    && (forall items | items in fetched :: FromLog(items, log))
    && (forall n | n in marked :: Handed(fetched, n))
  }

  /** Every assigned number is live, acknowledged away or collected, and only one of the three. */
  ghost predicate Partitioned(live: set<Num>, acked: set<Num>, collected: set<Num>, last: int)
  {
    && live !! acked !! collected
    && (forall n: Num :: n in live || n in acked || n in collected <==> 1 <= n <= last)
  }

  ghost predicate NodeInv(node: Node, clocks: set<Num>)
  {
    && Consistent(node.box)
    && LogAgrees(node.box, node.log)
    && Settled(node.box, node.log, node.marked, clocks)
    && RefsValid(node.refs, node.log, clocks)
    && FetchesValid(node.fetched, node.marked, node.log)
    && Partitioned(node.box.msgs.Keys, node.ackRemoved, node.gcRemoved, node.box.last)
  }

  ghost predicate Inv(s: System)
  {
    forall r | r in s.nodes :: NodeInv(s.nodes[r], ClocksOf(s.nodes[r], s.clocks))
  }

  lemma InvAt(s: System, r: Bytes)
    requires Inv(s)
    ensures NodeInv(At(s, r), ClocksOf(At(s, r), s.clocks))
  {
  }

  /***** Every step keeps it *****/

  lemma ClocksGrow(node: Node, clocks: set<Num>, more: set<Num>)
    requires NodeInv(node, clocks) && clocks <= more
    ensures NodeInv(node, more)
  {
  }

  lemma LogExtends(b: Mailbox, marked: set<Num>, clocks: set<Num>, refs: set<ExpEntry>,
                   fetched: set<seq<StoredMessage>>, log: seq<Entry>, b': Mailbox, e: Entry)
    requires LogAgrees(b, log) && Settled(b, log, marked, clocks) && RefsValid(refs, log, clocks)
    requires FetchesValid(fetched, marked, log)
    requires b'.last == b.last + 1 && b'.msgs == b.msgs[b'.last := e] && b'.delivered == b.delivered < b'.last
    ensures var log' := log + [e];
            LogAgrees(b', log') && Settled(b', log', marked, clocks) && RefsValid(refs, log', clocks)
            && FetchesValid(fetched, marked, log')
  {
  }

  /** What a store does to the message table and the frontiers. */
  lemma StoreEffect(b: Mailbox, env: Envelope, now: Num, quota: Option<Quota>, size: Sizer)
    requires Consistent(b) && env.msgId != [] && b.last < MAX_UINT64
    ensures var (b', reply) := Store(b, env, now, quota, size);
            && Consistent(b')
            && if reply.Stored?
               then && b'.last == b.last + 1 && b'.msgs == b.msgs[b'.last := NewEntry(env, now)]
                    && b'.msgs.Keys == b.msgs.Keys + {b'.last}
                    && b'.delivered == b.delivered < b'.last
               else b' == b
  {
    hide Store, Correspondence, Named;
    StoreKeeps(b, env, now, quota, size);
    RejectedStoreAssignsNothing(b, env, now, quota, size);
    StoreLeavesDelivered(b, env, now, quota, size);
  }

  lemma StoreLeavesDelivered(b: Mailbox, env: Envelope, now: Num, quota: Option<Quota>, size: Sizer)
    ensures Store(b, env, now, quota, size).0.delivered == b.delivered
  {
    hide Admit;
  }

  lemma StoreKeepsNode(node: Node, clocks: set<Num>, env: Envelope, now: Num, quota: Option<Quota>, size: Sizer)
    requires NodeInv(node, clocks) && env.msgId != [] && node.box.last < MAX_UINT64
    ensures NodeInv(StoreNode(node, env, now, quota, size), clocks)
  {
    hide Store, Consistent, LogAgrees, Settled, RefsValid, FetchesValid;
    StoreEffect(node.box, env, now, quota, size);
    var (b', reply) := Store(node.box, env, now, quota, size);
    if reply.Stored? {
      LogExtends(node.box, node.marked, clocks, node.refs, node.fetched, node.log, b', NewEntry(env, now));
    }
  }

  lemma FetchKeepsNode(node: Node, clocks: set<Num>, after: Num, limit: int, now: Num)
    requires NodeInv(node, clocks)
    ensures NodeInv(FetchNode(node, after, limit, now), clocks)
  {
    hide Consistent, Settled, RefsValid, Partitioned, Listing;
    ListingExact(node.box, NextSeq(after), now);
    assert FromLog(Fetch(node.box, after, limit, now).items, node.log);
  }

  lemma MarkKeepsNode(node: Node, clocks: set<Num>, items: seq<StoredMessage>, now: Num)
    requires NodeInv(node, clocks) && items in node.fetched && items != []
    ensures NodeInv(MarkNode(node, items, now), clocks + {now})
  {
    ClocksGrow(node, clocks, clocks + {now});
    MarkKeeps(node.box, items, now);
    AdvanceIsLargest(node.box, now, Seqs(items), node.box.delivered);
    hide Consistent, Advance;
    var node' := MarkNode(node, items, now);
    assert FromLog(items, node.log);
    forall n: Num | 1 <= n <= |node'.log| && (n <= node'.box.delivered || n !in node'.box.msgs)
      ensures Accounted(node'.log, node'.marked, clocks + {now}, n)
    {
      if node.box.delivered < n <= node'.box.delivered {
        assert Passable(node.box, now, Seqs(items), n);
        assert now in clocks + {now};
      } else {
        assert Accounted(node.log, node.marked, clocks + {now}, n);
      }
    }
  }

  lemma AckKeepsNode(node: Node, clocks: set<Num>, ackSeq: Num, batch: nat, start: Num)
    requires NodeInv(node, clocks) && AckAccepted(node.box, ackSeq) && start <= node.box.acked && batch >= 1
    ensures NodeInv(AckNode(node, ackSeq, batch, start), clocks)
  {
    AckBatchKeeps(node.box, ackSeq, batch, start);
    VictimsAreDue(node.box, ackSeq, batch);
    assert forall n | n in node.box.msgs && n <= ackSeq :: Accounted(node.log, node.marked, clocks, n);
    var vs := Elements(Victims(node.box, ackSeq, batch));
    var b' := AckBatch(node.box, ackSeq, batch, start);
    assert b'.msgs == node.box.msgs - vs;
    hide AckBatch, Victims, Consistent, Settled, Partitioned, Elements;
    MessagesRemoved(node.box, b', vs, node.log, node.marked, clocks);
    PartitionMoves(node.box.msgs.Keys, node.ackRemoved, node.gcRemoved, node.box.last, vs);
  }

  lemma PartitionMoves(live: set<Num>, acked: set<Num>, collected: set<Num>, last: int, ns: set<Num>)
    requires Partitioned(live, acked, collected, last) && ns <= live
    ensures Partitioned(live - ns, acked + ns, collected, last)
  {
  }

  /** Removing messages that are already accounted for keeps every removed message accounted for. */
  lemma MessagesRemoved(b: Mailbox, b': Mailbox, ns: set<Num>, log: seq<Entry>, marked: set<Num>, clocks: set<Num>)
    requires LogAgrees(b, log) && Settled(b, log, marked, clocks)
    requires b'.msgs == b.msgs - ns && b'.last == b.last && b'.delivered == b.delivered
    requires forall n | n in ns && n in b.msgs :: 1 <= n <= |log| && Accounted(log, marked, clocks, n)
    ensures LogAgrees(b', log) && Settled(b', log, marked, clocks)
    ensures b'.msgs.Keys == b.msgs.Keys - ns
  {
  }

  lemma CollectKeepsNode(node: Node, clocks: set<Num>, due: ExpEntry)
    requires NodeInv(node, clocks) && due in node.refs
    ensures NodeInv(CollectNode(node, due), clocks)
  {
    hide Correspondence, Named;
    CollectKeeps(node.box, due.expireAt, due.storeSeq);
    var b' := Collect(node.box, due.expireAt, due.storeSeq);
    assert b'.msgs == node.box.msgs - {due.storeSeq};
    hide Consistent;
    MessagesRemoved(node.box, b', {due.storeSeq}, node.log, node.marked, clocks);
  }

  lemma ScanKeepsNode(node: Node, clocks: set<Num>, now: Num, found: set<ExpEntry>)
    requires NodeInv(node, clocks) && Scannable(node.box, now, found)
    ensures NodeInv(ScanNode(node, found), clocks + {now})
  {
  }

  lemma ActKeeps(node: Node, clocks: set<Num>, step: Step, r: Bytes, size: Sizer)
    requires NodeInv(node, ClocksOf(node, clocks)) && r in Touched(step) && Enabled(node, step, r)
    ensures var node' := Act(node, step, r, size); NodeInv(node', ClocksOf(node', clocks + Readings(step)))
  {
    hide NodeInv;
    var all := ClocksOf(node, clocks);
    assert ClocksOf(node, clocks + {}) == all;
    match step
    case StoreStep(_, env, now, quota) => StoreKeepsNode(node, all, env, now, quota, size);
    case FetchStep(_, after, limit, now) => FetchKeepsNode(node, all, after, limit, now);
    case MarkStep(_, items, now) =>
      if items == [] {
        assert MarkNode(node, items, now) == node;
      } else {
        MarkKeepsNode(node, all, items, now);
        assert ClocksOf(MarkNode(node, items, now), clocks + {}) == all + {now};
      }
    case AckStep(_, ackSeq, batch, start) => AckKeepsNode(node, all, ackSeq, batch, start);
    case ScanStep(now, found) =>
      ScanKeepsNode(node, all, now, found[r]);
      assert ClocksOf(node, clocks + {now}) == all + {now};
    case CollectStep(_, due) => CollectKeepsNode(node, all, due);
  }

  lemma StepKeeps(s: System, step: Step, size: Sizer)
    requires Inv(s) && Possible(s, step)
    ensures Inv(Next(s, step, size))
  {
    var s' := Next(s, step, size);
    forall r | r in s'.nodes ensures NodeInv(s'.nodes[r], ClocksOf(s'.nodes[r], s'.clocks)) {
      InvAt(s, r);
      hide NodeInv, Act;
      if r in Touched(step) {
        ActKeeps(At(s, r), s.clocks, step, r, size);
      } else {
        ClocksGrow(At(s, r), ClocksOf(At(s, r), s.clocks), ClocksOf(At(s, r), s'.clocks));
      }
    }
  }

  /***** Runs *****/

  ghost predicate Legal(s: System, steps: seq<Step>, size: Sizer)
    decreases |steps|
  {
    steps == [] || (Possible(s, steps[0]) && Legal(Next(s, steps[0], size), steps[1..], size))
  }

  ghost function Exec(s: System, steps: seq<Step>, size: Sizer): System
    decreases |steps|
  {
    if steps == [] then s else Exec(Next(s, steps[0], size), steps[1..], size)
  }

  lemma {:induction false} RunKeeps(s: System, steps: seq<Step>, size: Sizer)
    requires Inv(s) && Legal(s, steps, size)
    ensures Inv(Exec(s, steps, size))
    decreases |steps|
  {
    if steps == [] {
    } else {
      StepKeeps(s, steps[0], size);
      RunKeeps(Next(s, steps[0], size), steps[1..], size);
    }
  }

  /**
   No loss: in every run, a number that was assigned and is no longer stored was in a fetch
   result given to mark-delivered, or had expired at a clock reading of one of that recipient's
   own marks or of a scan.
   */
  lemma NoLoss(steps: seq<Step>, size: Sizer, r: Bytes, n: Num)
    requires Legal(START, steps, size)
    requires var node := At(Exec(START, steps, size), r); 1 <= n <= node.box.last && n !in node.box.msgs
    ensures var s := Exec(START, steps, size);
            var node := At(s, r);
            && |node.log| == node.box.last
            && (|| (n in node.marked && exists items :: items in node.fetched && Holds(items, n))
                || (exists t :: (t in node.marks || t in s.clocks) && node.log[n - 1].expireAt <= t))
  {
    RunKeeps(START, steps, size);
    InvAt(Exec(START, steps, size), r);
  }

  /** What a recipient is handed is what was stored for it. */
  lemma FetchedAsStored(steps: seq<Step>, size: Sizer, r: Bytes, items: seq<StoredMessage>, i: nat)
    requires Legal(START, steps, size)
    requires items in At(Exec(START, steps, size), r).fetched && i < |items|
    ensures var node := At(Exec(START, steps, size), r);
            1 <= items[i].storeSeq <= |node.log| && items[i].entry == node.log[items[i].storeSeq - 1]
  {
    RunKeeps(START, steps, size);
    InvAt(Exec(START, steps, size), r);
    assert FromLog(items, At(Exec(START, steps, size), r).log);
  }

  /** Index agreement, unique ids and the frontier chain hold in every state of every run. */
  lemma RunsAreConsistent(steps: seq<Step>, size: Sizer, r: Bytes)
    requires Legal(START, steps, size)
    ensures Consistent(At(Exec(START, steps, size), r).box)
  {
    RunKeeps(START, steps, size);
    InvAt(Exec(START, steps, size), r);
  }

  /** In every run, live, acknowledged and collected messages add up to the numbers assigned. */
  lemma RunsConserve(steps: seq<Step>, size: Sizer, r: Bytes)
    requires Legal(START, steps, size)
    ensures var node := At(Exec(START, steps, size), r);
            node.box.last == |node.box.msgs| + |node.ackRemoved| + |node.gcRemoved|
  {
    RunKeeps(START, steps, size);
    InvAt(Exec(START, steps, size), r);
    var node := At(Exec(START, steps, size), r);
    hide Exec, Legal;
    var all := node.box.msgs.Keys + node.ackRemoved + node.gcRemoved;
    assert forall n: Num :: n in all <==> 1 <= n <= node.box.last;
    Interval(node.box.last, all);
  }

  lemma {:induction false} Interval(k: nat, s: set<Num>)
    requires forall n: Num :: n in s <==> 1 <= n <= k
    ensures |s| == k
    decreases k
  {
    if k == 0 {
      assert s == {};
    } else {
      Interval(k - 1, s - {k});
    }
  }

  /***** Monotonicity *****/

  ghost predicate Grows(node: Node, node': Node)
  {
    && FrontiersGrow(node.box, node'.box)
    && node.log <= node'.log
    && (forall n | n in node'.box.msgs :: n in node.box.msgs || |node.log| < n)
  }

  lemma ActGrows(node: Node, clocks: set<Num>, step: Step, r: Bytes, size: Sizer)
    requires NodeInv(node, clocks) && r in Touched(step) && Enabled(node, step, r)
    ensures Grows(node, Act(node, step, r, size))
  {
    match step
    case StoreStep(_, env, now, quota) =>
      StoreKeeps(node.box, env, now, quota, size);
      RejectedStoreAssignsNothing(node.box, env, now, quota, size);
    case FetchStep(_, after, limit, now) =>
    case MarkStep(_, items, now) =>
      MarkKeeps(node.box, items, now);
    case AckStep(_, ackSeq, batch, start) =>
      AckBatchKeeps(node.box, ackSeq, batch, start);
    case ScanStep(now, found) =>
    case CollectStep(_, due) =>
      CollectKeeps(node.box, due.expireAt, due.storeSeq);
  }

  lemma StepGrows(s: System, step: Step, size: Sizer, r: Bytes)
    requires Inv(s) && Possible(s, step)
    ensures Grows(At(s, r), At(Next(s, step, size), r))
  {
    hide NodeInv, Act, Enabled;
    InvAt(s, r);
    if r in Touched(step) { ActGrows(At(s, r), ClocksOf(At(s, r), s.clocks), step, r, size); }
  }

  /** No frontier ever goes back, no number is assigned twice, and no removed message returns. */
  lemma {:induction false} RunGrows(s: System, steps: seq<Step>, size: Sizer, r: Bytes)
    requires Inv(s) && Legal(s, steps, size)
    ensures Grows(At(s, r), At(Exec(s, steps, size), r))
    decreases |steps|
  {
    hide Inv, Next, Possible;
    if steps == [] {
    } else {
      var s' := Next(s, steps[0], size);
      StepGrows(s, steps[0], size, r);
      StepKeeps(s, steps[0], size);
      RunGrows(s', steps[1..], size, r);
    }
  }

  /**
   Stale scans are safe: whatever runs between an expiry scan and the locked deletion of one of
   its references, the deletion removes exactly the message that was scanned, or nothing.
   */
  lemma StaleScanIsSafe(s: System, steps: seq<Step>, size: Sizer, r: Bytes, due: ExpEntry)
    requires Inv(s) && Legal(s, steps, size) && due in At(s, r).box.exp
    ensures var scanned := At(s, r).box;
            var b := At(Exec(s, steps, size), r).box;
            var b' := Collect(b, due.expireAt, due.storeSeq);
            if due.storeSeq in b.msgs
            then && due.storeSeq in scanned.msgs
                 && b.msgs[due.storeSeq] == scanned.msgs[due.storeSeq]
                 && b.msgs[due.storeSeq].expireAt == due.expireAt
                 && b' == Remove(b, {due.storeSeq})
            else b' == b
  {
    RunGrows(s, steps, size, r);
    RunKeeps(s, steps, size);
    InvAt(s, r);
    InvAt(Exec(s, steps, size), r);
    var node, node' := At(s, r), At(Exec(s, steps, size), r);
    hide Exec, Legal;
    assert due.storeSeq in node.box.msgs && node.box.msgs[due.storeSeq].expireAt == due.expireAt;
    CollectKeeps(node'.box, due.expireAt, due.storeSeq);
  }

  /** The number just above the delivered frontier was assigned and has been removed. */
  ghost predicate Stuck(b: Mailbox)
  {
    b.delivered < b.last && b.delivered + 1 !in b.msgs
  }

  /**
   Once the message just above the delivered frontier is gone, no continuation of the run moves
   the frontier, and every acknowledgement above it is refused.
   */
  lemma {:induction false} StuckForever(s: System, steps: seq<Step>, size: Sizer, r: Bytes, ackSeq: Num, k: nat)
    requires Inv(s) && Legal(s, steps, size) && Stuck(At(s, r).box) && k >= 1
    requires At(s, r).box.delivered < ackSeq
    ensures var b := At(Exec(s, steps, size), r).box;
            && Stuck(b)
            && b.delivered == At(s, r).box.delivered
            && Ack(b, ackSeq, k) == (b, BeyondDelivered(b.acked))
    decreases |steps|
  {
    if steps == [] {
      InvAt(s, r);
    } else {
      var s' := Next(s, steps[0], size);
      StuckStep(s, steps[0], size, r);
      StepKeeps(s, steps[0], size);
      StuckForever(s', steps[1..], size, r, ackSeq, k);
    }
  }

  lemma ActDelivered(node: Node, step: Step, r: Bytes, size: Sizer)
    requires r in Touched(step) && NextSeq(node.box.delivered) !in node.box.msgs
    ensures Act(node, step, r, size).box.delivered == node.box.delivered
  {
  }

  lemma ActStuck(node: Node, clocks: set<Num>, step: Step, r: Bytes, size: Sizer)
    requires NodeInv(node, clocks) && r in Touched(step) && Enabled(node, step, r) && Stuck(node.box)
    ensures var b := Act(node, step, r, size).box; Stuck(b) && b.delivered == node.box.delivered
  {
    hide Act;
    ActDelivered(node, step, r, size);
    ActGrows(node, clocks, step, r, size);
  }

  lemma StuckStep(s: System, step: Step, size: Sizer, r: Bytes)
    requires Inv(s) && Possible(s, step) && Stuck(At(s, r).box)
    ensures var b := At(Next(s, step, size), r).box; Stuck(b) && b.delivered == At(s, r).box.delivered
  {
    InvAt(s, r);
    hide NodeInv, Act;
    if r in Touched(step) { ActStuck(At(s, r), ClocksOf(At(s, r), s.clocks), step, r, size); }
  }

  /***** Quota *****/

  ghost predicate AllQuota(steps: seq<Step>, quota: Quota)
  {
    forall i | 0 <= i < |steps| :: steps[i].StoreStep? ==> steps[i].quota == Some(quota)
  }

  lemma ActWithinQuota(node: Node, clocks: set<Num>, step: Step, r: Bytes, size: Sizer, quota: Quota)
    requires NodeInv(node, clocks) && r in Touched(step) && Enabled(node, step, r)
    requires step.StoreStep? ==> step.quota == Some(quota)
    requires WithinQuota(node.box, quota, size)
    ensures WithinQuota(Act(node, step, r, size).box, quota, size)
  {
    hide TotalBytes, Store, Victims, Consistent, LogAgrees, Settled, RefsValid, FetchesValid, Partitioned, Listing;
    var b := node.box;
    match step
    case StoreStep(_, env, now, _) =>
      StoreWithinQuota(b, env, now, quota, size);
    case AckStep(_, ackSeq, batch, _) =>
      TotalBytesShrinks(b.msgs, Elements(Victims(b, ackSeq, batch)), size);
    case CollectStep(_, due) =>
      TotalBytesShrinks(b.msgs, {due.storeSeq}, size);
    case _ =>
  }

  lemma QuotaStep(s: System, step: Step, size: Sizer, r: Bytes, quota: Quota)
    requires Inv(s) && Possible(s, step)
    requires step.StoreStep? ==> step.quota == Some(quota)
    requires WithinQuota(At(s, r).box, quota, size)
    ensures WithinQuota(At(Next(s, step, size), r).box, quota, size)
  {
    InvAt(s, r);
    hide NodeInv, Act, WithinQuota;
    if r in Touched(step) { ActWithinQuota(At(s, r), ClocksOf(At(s, r), s.clocks), step, r, size, quota); }
  }

  /** If every store uses the same limits, no interleaving ever exceeds them. */
  lemma {:induction false} QuotaHolds(s: System, steps: seq<Step>, size: Sizer, r: Bytes, quota: Quota)
    requires Inv(s) && Legal(s, steps, size) && AllQuota(steps, quota)
    requires WithinQuota(At(s, r).box, quota, size)
    ensures WithinQuota(At(Exec(s, steps, size), r).box, quota, size)
    decreases |steps|
  {
    if steps == [] {
    } else {
      QuotaStep(s, steps[0], size, r, quota);
      StepKeeps(s, steps[0], size);
      QuotaHolds(Next(s, steps[0], size), steps[1..], size, r, quota);
    }
  }
}

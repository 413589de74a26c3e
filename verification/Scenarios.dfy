/** Runs that show how far the general results reach: what can still happen, and what can go wrong. */
module Scenarios {
  import opened ByteOrder
  import opened Options
  import opened Ascending
  import opened Decimal
  import opened Mailboxes
  import opened MailboxLaws
  import opened Runs

  /***** Runs of one recipient *****/

  ghost predicate LegalAt(node: Node, steps: seq<Step>, r: Bytes, size: Sizer)
    decreases |steps|
  {
    steps == [] ||
    (&& Touched(steps[0]) == {r} && Enabled(node, steps[0], r)
     && LegalAt(Act(node, steps[0], r, size), steps[1..], r, size))
  }

  ghost function ExecAt(node: Node, steps: seq<Step>, r: Bytes, size: Sizer): Node
    requires LegalAt(node, steps, r, size)
    decreases |steps|
  {
    if steps == [] then node else ExecAt(Act(node, steps[0], r, size), steps[1..], r, size)
  }

  lemma {:induction false} RunAt(s: System, steps: seq<Step>, r: Bytes, size: Sizer)
    requires LegalAt(At(s, r), steps, r, size)
    ensures Legal(s, steps, size) && At(Exec(s, steps, size), r) == ExecAt(At(s, r), steps, r, size)
    decreases |steps|
  {
    hide Act, Enabled;
    if steps == [] {
    } else {
      RunAt(Next(s, steps[0], size), steps[1..], r, size);
    }
  }

  lemma PrependAt(node: Node, step: Step, rest: seq<Step>, r: Bytes, size: Sizer)
    requires Touched(step) == {r} && Enabled(node, step, r) && LegalAt(Act(node, step, r, size), rest, r, size)
    ensures LegalAt(node, [step] + rest, r, size)
    ensures ExecAt(node, [step] + rest, r, size) == ExecAt(Act(node, step, r, size), rest, r, size)
  {
    hide Act, Enabled;
    assert ([step] + rest)[1..] == rest;
  }

  /** Three steps in a row. */
  lemma Three(node: Node, a: Step, b: Step, c: Step, r: Bytes, size: Sizer)
    requires Touched(a) == Touched(b) == Touched(c) == {r}
    requires Enabled(node, a, r) && Enabled(Act(node, a, r, size), b, r)
    requires Enabled(Act(Act(node, a, r, size), b, r, size), c, r)
    ensures LegalAt(node, [a] + ([b] + ([c] + [])), r, size)
    ensures ExecAt(node, [a] + ([b] + ([c] + [])), r, size) == Act(Act(Act(node, a, r, size), b, r, size), c, r, size)
  {
    hide Act, Enabled;
    var node1 := Act(node, a, r, size);
    var node2 := Act(node1, b, r, size);
    PrependAt(node2, c, [], r, size);
    PrependAt(node1, b, [c] + [], r, size);
    PrependAt(node, a, [b] + ([c] + []), r, size);
  }

  /***** The frontier moves again unless it is stuck *****/

  lemma {:induction false} UnusedId(ids: set<Bytes>) returns (id: Bytes)
    ensures id != [] && forall x | x in ids :: |x| < |id|
    decreases |ids|
  {
    if ids == {} {
      id := [0];
    } else {
      var x :| x in ids;
      var id' := UnusedId(ids - {x});
      id := if |x| < |id'| then id' else [0] + x;
      assert forall y | y in ids :: y == x || y in ids - {x};
    }
  }

  /** Storing a message under an unused id and without a quota succeeds. */
  lemma StoreSucceeds(b: Mailbox, env: Envelope, size: Sizer)
    requires Consistent(b) && b.last < MAX_UINT64
    requires env.msgId != [] && env.msgId !in b.dup && env.ttlSec == Some(1)
    ensures var b' := Store(b, env, 0, None, size).0;
            && b'.msgs == b.msgs[b.last + 1 := Entry(0, 1, env)] && b'.delivered == b.delivered
            && Consistent(b')
  {
    StoreKeeps(b, env, 0, None, size);
  }

  ghost function Everything(b: Mailbox, now: int): seq<StoredMessage>
  {
    Fetch(b, b.delivered, |Unexpired(b, b.delivered + 1, now)| + 1, now).items
  }

  /** Fetching everything above the frontier and marking it moves the frontier if the next message is there. */
  lemma MarkMoves(b: Mailbox, now: int)
    requires Numbered(b) && b.delivered < MAX_UINT64 && b.delivered + 1 in b.msgs
    requires Unexpired(b, b.delivered + 1, now) != {}
    ensures b.delivered < Mark(b, Everything(b, now), now).delivered
  {
    var items := Everything(b, now);
    ListingExact(b, b.delivered + 1, now);
    assert items == Listing(b, b.delivered + 1, now);
    hide Listing;
    forall n | n in Unexpired(b, b.delivered + 1, now) ensures n in Seqs(items) {
      assert Holds(items, n);
    }
    assert Passable(b, now, Seqs(items), b.delivered + 1);
    assert PassableUpTo(b, now, Seqs(items), b.delivered, b.delivered + 1);
    MarkIsLargest(b, items, now, b.delivered + 1);
  }

  /**
   As long as a mailbox is not stuck and has a number left, some continuation moves its frontier:
   store a message, fetch everything above the frontier, and mark it. With `StuckForever`, being
   stuck is exactly what stops a frontier for good.
   */
  lemma FrontierCanMove(s: System, size: Sizer, r: Bytes) returns (steps: seq<Step>)
    requires Inv(s) && !Stuck(At(s, r).box) && At(s, r).box.last < MAX_UINT64
    ensures Legal(s, steps, size)
    ensures At(s, r).box.delivered < At(Exec(s, steps, size), r).box.delivered
  {
    hide Inv, NodeInv, Consistent, Store, Fetch, Mark, Unexpired, LegalAt, ExecAt, Legal, Exec;
    ConsistentAt(s, r);
    var node := At(s, r);
    var id := UnusedId(node.box.dup.Keys);
    var env := Envelope(id, [], r, Some(1), []);
    StoreMoves(node.box, env, size);
    var b := Store(node.box, env, 0, None, size).0;
    var store := StoreStep(r, env, 0, None);
    var fetch := FetchStep(r, b.delivered, |Unexpired(b, b.delivered + 1, 0)| + 1, 0);
    var mark := MarkStep(r, Everything(b, 0), 0);
    Three(node, store, fetch, mark, r, size);
    steps := [store] + ([fetch] + ([mark] + []));
    RunAt(s, steps, r, size);
  }

  lemma ConsistentAt(s: System, r: Bytes)
    requires Inv(s)
    ensures Consistent(At(s, r).box)
  {
    InvAt(s, r);
  }

  lemma StoreMoves(b: Mailbox, env: Envelope, size: Sizer)
    requires Consistent(b) && !Stuck(b) && b.last < MAX_UINT64
    requires env.msgId != [] && env.msgId !in b.dup && env.ttlSec == Some(1)
    ensures var b' := Store(b, env, 0, None, size).0;
            b'.delivered == b.delivered < Mark(b', Everything(b', 0), 0).delivered
  {
    StoreSucceeds(b, env, size);
    hide Store, Correspondence, Named, Mark, Everything;
    var b' := Store(b, env, 0, None, size).0;
    assert b.last + 1 in Unexpired(b', b'.delivered + 1, 0);
    MarkMoves(b', 0);
  }

  /***** Conditions that are met in a run *****/

  const NOBODY: Bytes := []

  /** A message for `NOBODY` that is stored at time zero and lives for `ttl` seconds. */
  function Note(id: Byte, ttl: int): Envelope { Envelope([id], [], NOBODY, Some(ttl), []) }

  function Storing(id: Byte, ttl: int): Step { StoreStep(NOBODY, Note(id, ttl), 0, None) }

  function ScanFor(e: ExpEntry): Step { ScanStep(0, map[NOBODY := {e}]) }

  lemma NoteIsStored(id: Byte, ttl: int, node: Node, size: Sizer)
    requires IsInt64(ttl) && [id] !in node.box.dup && 0 <= node.box.last < MAX_UINT64
    ensures var n := node.box.last + 1;
            Act(node, Storing(id, ttl), NOBODY, size).box ==
              node.box.(msgs := node.box.msgs[n := Entry(0, ttl, Note(id, ttl))], dup := node.box.dup[[id] := n],
                        exp := node.box.exp + {ExpEntry(ttl, n)}, last := n)
  {
    assert node.box.dup - {[id]} == node.box.dup;
  }

  /** A message that expires before it was ever fetched and is collected leaves the frontier stuck. */
  lemma StuckIsReachable(size: Sizer) returns (steps: seq<Step>)
    ensures Legal(START, steps, size) && Stuck(At(Exec(START, steps, size), NOBODY).box)
  {
    hide Store, LegalAt, ExecAt, Legal, Exec;
    var e := ExpEntry(0, 1);
    NoteIsStored(1, 0, NEW_NODE, size);
    Three(NEW_NODE, Storing(1, 0), ScanFor(e), CollectStep(NOBODY, e), NOBODY, size);
    steps := [Storing(1, 0)] + ([ScanFor(e)] + ([CollectStep(NOBODY, e)] + []));
    RunAt(START, steps, NOBODY, size);
  }

  /** Message 1 is live and delivered; message 2 was passed as expired and has been collected. */
  ghost predicate GapBelowDelivered(b: Mailbox)
  {
    b.msgs.Keys == {1} && b.acked == 0 && b.delivered == 2
  }

  /** An acknowledgement of both, in batches of two, deletes message 1 and stops there. */
  lemma GapFallsShort(b: Mailbox)
    requires Consistent(b) && GapBelowDelivered(b)
    ensures Ack(b, 2, 2).0.acked == 1 && Ack(b, 2, 2).1 == Acked(1, 1)
  {
    hide Ack;
    assert Due(b, 2) == {1};
    AckFallsShort(b, 2, 2);
    AckResult(b, 2, 2);
    AscUnique([1], {1});
  }

  /** What fetching at time zero after two stores hands over: only the message that has not expired. */
  lemma FetchOfOne(b: Mailbox)
    requires b.msgs.Keys == {1, 2} && b.msgs[1].expireAt == 10 && b.msgs[2].expireAt == 0
    ensures Fetch(b, 0, 1, 0).items == [StoredMessage(1, b.msgs[1])]
  {
    assert Unexpired(b, 1, 0) == {1};
    AscUnique([1], {1});
  }

  lemma MarkPassesBoth(b: Mailbox, items: seq<StoredMessage>)
    requires b.msgs.Keys == {1, 2} && b.msgs[2].expireAt == 0 && b.delivered == 0
    requires |items| == 1 && items[0].storeSeq == 1
    ensures Mark(b, items, 0) == b.(delivered := 2)
  {
    assert items[0].storeSeq in Seqs(items);
    assert Advance(b, 0, Seqs(items), 2) == 2;
    assert Advance(b, 0, Seqs(items), 1) == 2;
  }

  /** Two messages are stored, the second already expired, and the first is fetched. */
  lemma BothFetched(size: Sizer) returns (steps: seq<Step>, items: seq<StoredMessage>)
    ensures Legal(START, steps, size)
    ensures var node := At(Exec(START, steps, size), NOBODY);
            && items in node.fetched && |items| == 1 && items[0].storeSeq == 1
            && node.box.msgs.Keys == {1, 2} && node.box.msgs[2].expireAt == 0 && ExpEntry(0, 2) in node.box.exp
            && node.box.delivered == node.box.acked == 0
  {
    hide Store, Fetch, LegalAt, ExecAt, Legal, Exec;
    NoteIsStored(1, 10, NEW_NODE, size);
    var node1 := Act(NEW_NODE, Storing(1, 10), NOBODY, size);
    NoteIsStored(2, 0, node1, size);
    var node2 := Act(node1, Storing(2, 0), NOBODY, size);
    FetchOfOne(node2.box);
    var fetch := FetchStep(NOBODY, 0, 1, 0);
    items := [StoredMessage(1, node2.box.msgs[1])];
    Three(NEW_NODE, Storing(1, 10), Storing(2, 0), fetch, NOBODY, size);
    steps := [Storing(1, 10)] + ([Storing(2, 0)] + ([fetch] + []));
    RunAt(START, steps, NOBODY, size);
  }

  /** A run that leaves an acknowledgement short of the number it asks for. */
  lemma ShortAckIsReachable(size: Sizer) returns (steps: seq<Step>)
    ensures Legal(START, steps, size)
    ensures var b := At(Exec(START, steps, size), NOBODY).box;
            AckAccepted(b, 2) && Ack(b, 2, 2).0.acked == 1
  {
    hide Mark, Ack, LegalAt, ExecAt, Legal, Exec;
    var start, items := BothFetched(size);
    var s := Exec(START, start, size);
    MarkPassesBoth(At(s, NOBODY).box, items);
    var rest := FinishGap(s, items, size);
    Join(START, start, rest, size);
    steps := start + rest;
    RunsAreConsistent(steps, size, NOBODY);
    GapFallsShort(At(Exec(START, steps, size), NOBODY).box);
  }

  /** A context that ends after the first of two deletions: one is reported, and nothing has happened. */
  lemma OneTooMany(b: Mailbox, ackSeq: Num, k: nat)
    requires Consistent(b) && AckAccepted(b, ackSeq) && |Due(b, ackSeq)| >= 2 && k >= 2
    ensures var (b', outcome) := AckUnder(b, ackSeq, k, 2);
            b' == b && outcome.Cancelled? && outcome.count == 1
  {
    hide AckUnder, CutAfter, Due;
    AckIsCutIff(b, ackSeq, k, 2);
    CutAckResult(b, ackSeq, k, 2);
    CutNowhere(b, ackSeq);
  }

  /** A run that leaves two delivered messages, of which such an acknowledgement misreports one. */
  lemma MisreportIsReachable(size: Sizer) returns (steps: seq<Step>)
    ensures Legal(START, steps, size)
    ensures var b := At(Exec(START, steps, size), NOBODY).box;
            var (b', outcome) := AckUnder(b, 2, 2, 2);
            CutInsideBatch(b, 2, 2, 2) && |b.msgs| - |b'.msgs| == 0 && Reported(outcome) == 1
  {
    hide Store, Fetch, Mark, AckUnder, LegalAt, ExecAt, Legal, Exec, CutInsideBatch;
    var start, items := BothFetched(size);
    var s := Exec(START, start, size);
    var mark := MarkStep(NOBODY, items, 0);
    MarkPassesBoth(At(s, NOBODY).box, items);
    OneStep(At(s, NOBODY), mark, NOBODY, size);
    RunAt(s, [mark] + [], NOBODY, size);
    Join(START, start, [mark] + [], size);
    steps := start + ([mark] + []);
    RunsAreConsistent(steps, size, NOBODY);
    var b := At(Exec(START, steps, size), NOBODY).box;
    assert Due(b, 2) == {1, 2};
    OneTooMany(b, 2, 2);
    AckMisreportsIff(b, 2, 2, 2);
  }

  lemma OneStep(node: Node, step: Step, r: Bytes, size: Sizer)
    requires Touched(step) == {r} && Enabled(node, step, r)
    ensures LegalAt(node, [step] + [], r, size) && ExecAt(node, [step] + [], r, size) == Act(node, step, r, size)
  {
    hide Act, Enabled;
    PrependAt(node, step, [], r, size);
  }

  /** Marks what was fetched, then scans for and collects message 2. */
  lemma FinishGap(s: System, items: seq<StoredMessage>, size: Sizer) returns (steps: seq<Step>)
    requires var node := At(s, NOBODY);
             && items in node.fetched && node.box.acked == 0
             && node.box.msgs.Keys == {1, 2} && ExpEntry(0, 2) in node.box.exp
             && Mark(node.box, items, 0) == node.box.(delivered := 2)
    ensures Legal(s, steps, size) && GapBelowDelivered(At(Exec(s, steps, size), NOBODY).box)
  {
    hide Mark, LegalAt, ExecAt, Legal, Exec;
    var node, e := At(s, NOBODY), ExpEntry(0, 2);
    var mark := MarkStep(NOBODY, items, 0);
    Three(node, mark, ScanFor(e), CollectStep(NOBODY, e), NOBODY, size);
    steps := [mark] + ([ScanFor(e)] + ([CollectStep(NOBODY, e)] + []));
    RunAt(s, steps, NOBODY, size);
  }

  lemma {:induction false} Join(s: System, a: seq<Step>, b: seq<Step>, size: Sizer)
    requires Legal(s, a, size) && Legal(Exec(s, a, size), b, size)
    ensures Legal(s, a + b, size) && Exec(s, a + b, size) == Exec(Exec(s, a, size), b, size)
    decreases |a|
  {
    hide Possible, Next;
    if a == [] {
      assert a + b == b;
    } else {
      assert (a + b)[1..] == a[1..] + b;
      Join(Next(s, a[0], size), a[1..], b, size);
    }
  }

  /** The largest cursor starts over: it is answered with a message that lies below it. */
  lemma LargestCursorStartsOver(id: Byte, size: Sizer)
    ensures var b := Act(NEW_NODE, Storing(id, 10), NOBODY, size).box;
            Fetch(b, MAX_UINT64, 1, 0).items == [StoredMessage(1, b.msgs[1])]
  {
    NoteIsStored(id, 10, NEW_NODE, size);
    hide Act;
    var b := Act(NEW_NODE, Storing(id, 10), NOBODY, size).box;
    assert Unexpired(b, 0, 0) == {1};
    AscUnique([1], {1});
  }
}

/** What every push keeps, whether or not pushes overlap. */
module ChannelLaws {
  import opened ByteOrder
  import opened Options
  import opened Ascending
  import opened Channels

  /** The UNIQUE constraint on message sequence numbers; ids are unique as keys. */
  ghost predicate SeqsUnique(ch: Channel)
  {
    forall i, j | i in ch.messages && j in ch.messages && ch.messages[i].seqNo == ch.messages[j].seqNo :: i == j
  }

  ghost predicate Keyed(ch: Channel)
  {
    forall id | id in ch.messages :: ch.messages[id].messageId == id
  }

  ghost predicate OwnRow(ch: Channel, id: Num)
    requires id in ch.messages
  {
    var m := ch.messages[id];
    && m.seqNo in ch.changes
    && var c := ch.changes[m.seqNo];
       c.messageId == Some(id) && c.version == Some(m.version) && c.isDeleted == Some(m.isDeleted)
  }

  /** A row that mentions a message names an existing one, with a version that is not newer. */
  ghost predicate RowBacked(ch: Channel, s: Num)
    requires s in ch.changes
  {
    var c := ch.changes[s];
    c.messageId.Some? ==>
      c.version.Some? && c.messageId.value in ch.messages && c.version.value <= ch.messages[c.messageId.value].version
  }

  /** The change log agrees with the message table. */
  ghost predicate LogAgrees(ch: Channel)
  {
    && (forall id | id in ch.messages :: OwnRow(ch, id))
    && (forall s | s in ch.changes :: RowBacked(ch, s))
  }

  ghost predicate ChannelInv(ch: Channel)
  {
    SeqsUnique(ch) && Keyed(ch) && LogAgrees(ch)
  }

  /** For every message, the pair of version and sequence number does not go down. */
  ghost predicate MessagesGrow(ch: Channel, ch': Channel)
  {
    forall id | id in ch.messages ::
      && id in ch'.messages
      && (|| ch.messages[id].version < ch'.messages[id].version
          || (ch.messages[id].version == ch'.messages[id].version && ch.messages[id].seqNo <= ch'.messages[id].seqNo))
  }

  lemma ApplyMessageKeeps(ch: Channel, m: Message)
    requires ChannelInv(ch) && ApplyMessage(ch, m).Ok?
    ensures ChannelInv(ApplyMessage(ch, m).value) && MessagesGrow(ch, ApplyMessage(ch, m).value)
  {
    var ch' := ApplyMessage(ch, m).value;
    forall id | id in ch'.messages ensures OwnRow(ch', id) {
      if id != m.messageId {
        assert OwnRow(ch, id);
        assert ch.messages[id].seqNo != m.seqNo;
      }
    }
    forall s | s in ch'.changes ensures RowBacked(ch', s) {
      if s != m.seqNo { assert RowBacked(ch, s); }
    }
    forall i, j | i in ch'.messages && j in ch'.messages && ch'.messages[i].seqNo == ch'.messages[j].seqNo
      ensures i == j
    {
      assert i != m.messageId ==> ch.messages[i].seqNo != m.seqNo;
      assert j != m.messageId ==> ch.messages[j].seqNo != m.seqNo;
    }
  }

  lemma {:induction false} ApplyMessagesKeeps(ch: Channel, ms: seq<Message>)
    requires ChannelInv(ch) && ApplyMessages(ch, ms).Ok?
    ensures ChannelInv(ApplyMessages(ch, ms).value) && MessagesGrow(ch, ApplyMessages(ch, ms).value)
    ensures ApplyMessages(ch, ms).value.row == ch.row
  {
    if ms == [] {
    } else {
      ApplyMessagesKeeps(ch, ms[..|ms| - 1]);
      ApplyMessageKeeps(ApplyMessages(ch, ms[..|ms| - 1]).value, ms[|ms| - 1]);
    }
  }

  /** A profile row leaves the message columns of the row that it overwrites. */
  lemma ApplyProfileKeeps(ch: Channel, old': Option<ChannelRow>, req: Request)
    requires ChannelInv(ch)
    ensures ChannelInv(ApplyProfile(ch, old', req)) && ApplyProfile(ch, old', req).messages == ch.messages
  {
  }

  lemma RowIsIrrelevant(ch: Channel, row: Option<ChannelRow>)
    requires ChannelInv(ch)
    ensures ChannelInv(ch.(row := row))
  {
  }

  /**
   In whatever state the row was read, a push without an explicit change list keeps the change
   log in agreement with the message table, and a failed push changes nothing at all.
   */
  lemma PushKeeps(ch: Channel, old': Option<ChannelRow>, req: Request, checks: Checks)
    requires ChannelInv(ch) && req.changes == []
    ensures var (ch', err) := Push(ch, old', req, checks);
            ChannelInv(ch') && MessagesGrow(ch, ch') && (err.Some? ==> ch' == ch)
  {
    hide ChannelInv, ApplyProfile;
    var start := ch.(row := Some(UpsertRow(ch.row, req.profile, req.head)));
    RowIsIrrelevant(ch, start.row);
    if ApplyMessages(start, req.messages).Ok? {
      ApplyMessagesKeeps(start, req.messages);
      ApplyProfileKeeps(ApplyMessages(start, req.messages).value, old', req);
    }
  }

  /***** Explicit change lists *****/

  lemma {:induction false} ApplyChangesKeepsMessages(ch: Channel, cs: seq<Change>, channelId: Bytes)
    requires ApplyChanges(ch, cs, channelId).Ok?
    ensures ApplyChanges(ch, cs, channelId).value.messages == ch.messages
    ensures ApplyChanges(ch, cs, channelId).value.row == ch.row
  {
    if cs == [] {
    } else {
      ApplyChangesKeepsMessages(ch, cs[..|cs| - 1], channelId);
    }
  }

  /** The message table itself is safe from explicit changes: numbers stay unique and pairs do not go down. */
  ghost predicate TableInv(ch: Channel)
  {
    SeqsUnique(ch) && Keyed(ch)
  }

  lemma {:induction false} ApplyMessagesTable(ch: Channel, ms: seq<Message>)
    requires TableInv(ch) && ApplyMessages(ch, ms).Ok?
    ensures TableInv(ApplyMessages(ch, ms).value) && MessagesGrow(ch, ApplyMessages(ch, ms).value)
  {
    if ms == [] {
    } else {
      var front, m := ApplyMessages(ch, ms[..|ms| - 1]).value, ms[|ms| - 1];
      ApplyMessagesTable(ch, ms[..|ms| - 1]);
      assert forall id | id in front.messages :: id != m.messageId ==> front.messages[id].seqNo != m.seqNo;
    }
  }

  lemma PushKeepsTable(ch: Channel, old': Option<ChannelRow>, req: Request, checks: Checks)
    requires TableInv(ch)
    ensures var (ch', err) := Push(ch, old', req, checks);
            TableInv(ch') && MessagesGrow(ch, ch') && (err.Some? ==> ch' == ch)
  {
    var start := ch.(row := Some(UpsertRow(ch.row, req.profile, req.head)));
    if ApplyMessages(start, req.messages).Ok? {
      ApplyMessagesTable(start, req.messages);
      var ch1 := ApplyProfile(ApplyMessages(start, req.messages).value, old', req);
      if ApplyChanges(ch1, req.changes, req.profile.channelId).Ok? {
        ApplyChangesKeepsMessages(ch1, req.changes, req.profile.channelId);
      }
    }
  }

  /***** Runs of pushes, overlapping in any way *****/

  /** A push whose transaction found the row read as `seen`. */
  datatype Event = Event(seen: Option<ChannelRow>, req: Request)

  function RunPushes(ch: Channel, events: seq<Event>, checks: Checks): Channel
    decreases |events|
  {
    if events == [] then ch else
      RunPushes(Push(ch, events[0].seen, events[0].req, checks).0, events[1..], checks)
  }

  predicate NoExplicitChanges(events: seq<Event>)
  {
    forall i | 0 <= i < |events| :: events[i].req.changes == []
  }

  lemma {:induction false} RunKeeps(ch: Channel, events: seq<Event>, checks: Checks)
    requires ChannelInv(ch) && NoExplicitChanges(events)
    ensures ChannelInv(RunPushes(ch, events, checks)) && MessagesGrow(ch, RunPushes(ch, events, checks))
    decreases |events|
  {
    hide Push, ChannelInv;
    if events == [] {
    } else {
      PushKeeps(ch, events[0].seen, events[0].req, checks);
      RunKeeps(Push(ch, events[0].seen, events[0].req, checks).0, events[1..], checks);
    }
  }

  /**
   In every run of pushes without explicit changes, each stored message has a change row at its
   own number with its id, version and deleted flag, and the stored version is the largest version
   that any row gives for that id.
   */
  lemma LogAgreesWithTable(events: seq<Event>, checks: Checks, id: Num)
    requires NoExplicitChanges(events) && id in RunPushes(NO_CHANNEL, events, checks).messages
    ensures var ch := RunPushes(NO_CHANNEL, events, checks);
            var m := ch.messages[id];
            && m.seqNo in ch.changes
            && ch.changes[m.seqNo].messageId == Some(id)
            && ch.changes[m.seqNo].version == Some(m.version)
            && ch.changes[m.seqNo].isDeleted == Some(m.isDeleted)
            && (forall s | s in ch.changes && ch.changes[s].messageId == Some(id) ::
                  ch.changes[s].version.Some? && ch.changes[s].version.value <= m.version)
  {
    RunKeeps(NO_CHANNEL, events, checks);
    var ch := RunPushes(NO_CHANNEL, events, checks);
    assert OwnRow(ch, id);
    assert forall s | s in ch.changes :: RowBacked(ch, s);
  }

  lemma {:induction false} RunKeepsTable(ch: Channel, events: seq<Event>, checks: Checks)
    requires TableInv(ch)
    ensures TableInv(RunPushes(ch, events, checks)) && MessagesGrow(ch, RunPushes(ch, events, checks))
    decreases |events|
  {
    hide Push, TableInv;
    if events == [] {
    } else {
      PushKeepsTable(ch, events[0].seen, events[0].req, checks);
      RunKeepsTable(Push(ch, events[0].seen, events[0].req, checks).0, events[1..], checks);
    }
  }

  /** What an explicit change must say for the log to agree with the message table. */
  predicate Truthful(messages: map<Num, Message>, c: Change)
  {
    && (c.row.messageId.Some? ==>
          && c.row.version.Some? && c.row.messageId.value in messages
          && c.row.version.value <= messages[c.row.messageId.value].version)
    && (forall id | id in messages :: messages[id].seqNo == c.seqNo ==>
          && c.row.messageId == Some(id) && c.row.version == Some(messages[id].version)
          && c.row.isDeleted == Some(messages[id].isDeleted))
  }

  /** No later change of the list has the same number. */
  predicate Final(cs: seq<Change>, i: nat)
    requires i < |cs|
  {
    forall j | i < j < |cs| :: cs[j].seqNo != cs[i].seqNo
  }

  predicate Writes(cs: seq<Change>, s: Num)
  {
    exists i | 0 <= i < |cs| :: cs[i].seqNo == s
  }

  lemma FinalInFront(cs: seq<Change>, i: nat)
    requires i < |cs| - 1 && cs[i].seqNo != cs[|cs| - 1].seqNo
    ensures Final(cs, i) <==> Final(cs[..|cs| - 1], i)
  {
  }

  lemma {:induction false} LastWriteWins(ch: Channel, cs: seq<Change>, channelId: Bytes, s: Num)
    requires ApplyChanges(ch, cs, channelId).Ok?
    ensures var changes' := ApplyChanges(ch, cs, channelId).value.changes;
            && (forall i: nat | i < |cs| && Final(cs, i) && cs[i].seqNo == s ::
                  s in changes' && changes'[s] == cs[i].row)
            && (Writes(cs, s) ==> exists i: nat :: i < |cs| && Final(cs, i) && cs[i].seqNo == s)
            && (!Writes(cs, s) ==>
                  (s in changes' <==> s in ch.changes) && (s in changes' ==> changes'[s] == ch.changes[s]))
  {
    if cs == [] {
    } else {
      var k := |cs| - 1;
      LastWriteWins(ch, cs[..k], channelId, s);
      assert Final(cs, k);
      forall i: nat | i < k && cs[k].seqNo != s && cs[i].seqNo == s ensures Final(cs, i) <==> Final(cs[..k], i) {
        FinalInFront(cs, i);
      }
    }
  }

  lemma FinalRow(ch: Channel, cs: seq<Change>, channelId: Bytes, i: nat)
    requires ApplyChanges(ch, cs, channelId).Ok? && LogAgrees(ApplyChanges(ch, cs, channelId).value)
    requires i < |cs| && Final(cs, i)
    ensures Truthful(ch.messages, cs[i])
  {
    var ch' := ApplyChanges(ch, cs, channelId).value;
    LastWriteWins(ch, cs, channelId, cs[i].seqNo);
    ApplyChangesKeepsMessages(ch, cs, channelId);
    hide ApplyChanges;
    assert RowBacked(ch', cs[i].seqNo);
    assert forall id | id in ch.messages && ch.messages[id].seqNo == cs[i].seqNo :: OwnRow(ch', id);
  }

  ghost predicate AllTruthful(messages: map<Num, Message>, cs: seq<Change>)
  {
    forall i: nat | i < |cs| && Final(cs, i) :: Truthful(messages, cs[i])
  }

  /** A change list keeps the agreement exactly when the last change for every number is truthful. */
  lemma ExplicitChangesAgree(ch: Channel, cs: seq<Change>, channelId: Bytes)
    requires LogAgrees(ch) && ApplyChanges(ch, cs, channelId).Ok?
    ensures LogAgrees(ApplyChanges(ch, cs, channelId).value) <==> AllTruthful(ch.messages, cs)
  {
    var ch' := ApplyChanges(ch, cs, channelId).value;
    ApplyChangesKeepsMessages(ch, cs, channelId);
    if LogAgrees(ch') {
      forall i: nat | i < |cs| && Final(cs, i) ensures Truthful(ch.messages, cs[i]) {
        FinalRow(ch, cs, channelId, i);
      }
    }
    if AllTruthful(ch.messages, cs) {
      forall s | s in ch'.changes ensures RowBacked(ch', s) {
        LastWriteWins(ch, cs, channelId, s);
        assert s in ch.changes ==> RowBacked(ch, s);
      }
      forall id | id in ch'.messages ensures OwnRow(ch', id) {
        LastWriteWins(ch, cs, channelId, ch.messages[id].seqNo);
        assert OwnRow(ch, id);
      }
    }
  }

  /** The message table with the messages of a push written over it, the last one for each id. */
  function Overlay(messages: map<Num, Message>, ms: seq<Message>): map<Num, Message>
  {
    if ms == [] then messages else
      Overlay(messages, ms[..|ms| - 1])[ms[|ms| - 1].messageId := ms[|ms| - 1]]
  }

  lemma {:induction false} ApplyMessagesOverlays(ch: Channel, ms: seq<Message>)
    requires ApplyMessages(ch, ms).Ok?
    ensures ApplyMessages(ch, ms).value.messages == Overlay(ch.messages, ms)
    ensures ApplyMessages(ch, ms).value.row == ch.row
  {
    if ms == [] {
    } else {
      ApplyMessagesOverlays(ch, ms[..|ms| - 1]);
    }
  }

  /** The row and the message table that an accepted push leaves, whatever else it writes. */
  lemma PushedTables(ch: Channel, seen: Option<ChannelRow>, req: Request, checks: Checks)
    requires Push(ch, seen, req, checks).1.None?
    ensures var ch' := Push(ch, seen, req, checks).0;
            && ch'.row == Some(UpsertRow(ch.row, req.profile, req.head))
            && ch'.messages == Overlay(ch.messages, req.messages)
  {
    var start := ch.(row := Some(UpsertRow(ch.row, req.profile, req.head)));
    ApplyMessagesOverlays(start, req.messages);
    var ch1 := ApplyProfile(ApplyMessages(start, req.messages).value, seen, req);
    ApplyChangesKeepsMessages(ch1, req.changes, req.profile.channelId);
  }

  /**
   An accepted push with an explicit change list leaves the log in agreement exactly when the last
   change it gives for each number is truthful about the old messages and those of the push.
   */
  lemma ExplicitPushAgrees(ch: Channel, seen: Option<ChannelRow>, req: Request, checks: Checks)
    requires ChannelInv(ch) && Push(ch, seen, req, checks).1.None?
    ensures ChannelInv(Push(ch, seen, req, checks).0)
       <==> AllTruthful(Overlay(ch.messages, req.messages), req.changes)
  {
    hide ApplyChanges, ApplyMessages, ApplyProfile, LogAgrees, AllTruthful;
    var start := ch.(row := Some(UpsertRow(ch.row, req.profile, req.head)));
    RowIsIrrelevant(ch, start.row);
    ApplyMessagesKeeps(start, req.messages);
    ApplyMessagesOverlays(start, req.messages);
    var ch1 := ApplyProfile(ApplyMessages(start, req.messages).value, seen, req);
    ApplyProfileKeeps(ApplyMessages(start, req.messages).value, seen, req);
    ApplyChangesKeepsMessages(ch1, req.changes, req.profile.channelId);
    ExplicitChangesAgree(ch1, req.changes, req.profile.channelId);
  }

  /** Checks that let everything through. */
  const LENIENT := Checks(_ => true, _ => true, _ => true, (_, _) => true)

  /** A push with a head of last number `lastSeq` and the given change list. */
  function Bare(lastSeq: Num, changes: seq<Change>): Request
  {
    Request([], Profile([], [], 1, [], 1, 0, 0, []), Head([], [], 1, 0, 1, lastSeq, 0, []), [], changes)
  }

  /** An accepted change list that breaks the agreement: it mentions a message that was never pushed. */
  lemma ExplicitChangeCanLie()
    ensures var lie := Change([], 11, ChangeRow(MESSAGE, Some(7), Some(1), Some(false), None, 0));
            var (ch, err) := Push(NO_CHANNEL, None, Bare(10, [lie]), LENIENT);
            && err == None && ChannelInv(NO_CHANNEL) && !ChannelInv(ch)
            && Bounded(NO_CHANNEL) && !Bounded(ch)
  {
    var lie := Change([], 11, ChangeRow(MESSAGE, Some(7), Some(1), Some(false), None, 0));
    var req := Bare(10, [lie]);
    var start := NO_CHANNEL.(row := Some(UpsertRow(None, req.profile, req.head)));
    assert [lie][..0] == [];
    assert ApplyChanges(start, [], []) == Ok(start);
    var ch := ApplyChanges(start, [lie], []).value;
    assert ch.changes == map[11 := lie.row];
    assert !RowBacked(ch, 11);
  }

  /***** Pushes that do not overlap *****/

  /** The head's last number bounds every message. */
  ghost predicate MessagesBounded(ch: Channel)
  {
    if ch.row.None? then ch.messages == map[]
    else forall id | id in ch.messages :: ch.messages[id].seqNo <= ch.row.value.lastSeq
  }

  ghost predicate ChangesBounded(ch: Channel)
  {
    if ch.row.None? then ch.changes == map[]
    else forall s | s in ch.changes :: s <= ch.row.value.lastSeq
  }

  ghost predicate Bounded(ch: Channel)
  {
    MessagesBounded(ch) && ChangesBounded(ch)
  }

  lemma {:induction false} OverlayBounded(messages: map<Num, Message>, ms: seq<Message>, bound: Num)
    requires forall i | 0 <= i < |ms| :: ms[i].seqNo <= bound
    requires forall id | id in messages :: messages[id].seqNo <= bound
    ensures forall id | id in Overlay(messages, ms) :: Overlay(messages, ms)[id].seqNo <= bound
  {
    if ms == [] {
    } else {
      OverlayBounded(messages, ms[..|ms| - 1], bound);
    }
  }

  /**
   When the row is read and the transaction runs without a push in between, `lastSeq` never goes
   down and bounds every message.
   */
  lemma PushKeepsBound(ch: Channel, req: Request, checks: Checks)
    requires MessagesBounded(ch)
    ensures var ch' := Push(ch, ch.row, req, checks).0;
            MessagesBounded(ch') && (ch.row.Some? ==> ch'.row.Some? && ch.row.value.lastSeq <= ch'.row.value.lastSeq)
  {
    if Push(ch, ch.row, req, checks).1.None? {
      PushedTables(ch, ch.row, req, checks);
      assert forall i | 0 <= i < |req.messages| :: !ExceedsHead(req.head, req.messages[i]);
      OverlayBounded(ch.messages, req.messages, req.head.lastSeq);
    }
  }

  lemma {:induction false} MessageRowsBounded(ch: Channel, ms: seq<Message>, bound: Num)
    requires ApplyMessages(ch, ms).Ok?
    requires forall i | 0 <= i < |ms| :: ms[i].seqNo <= bound
    requires forall s | s in ch.changes :: s <= bound
    ensures forall s | s in ApplyMessages(ch, ms).value.changes :: s <= bound
  {
    if ms == [] {
    } else {
      MessageRowsBounded(ch, ms[..|ms| - 1], bound);
    }
  }

  /** No explicit change is numbered above the pushed head. */
  predicate ChangesWithinHead(req: Request)
  {
    forall i | 0 <= i < |req.changes| :: req.changes[i].seqNo <= req.head.lastSeq
  }

  lemma ExplicitRowsBounded(ch: Channel, cs: seq<Change>, channelId: Bytes, bound: Num)
    requires ApplyChanges(ch, cs, channelId).Ok? && forall s | s in ch.changes :: s <= bound
    ensures (forall s | s in ApplyChanges(ch, cs, channelId).value.changes :: s <= bound)
       <==> (forall i | 0 <= i < |cs| :: cs[i].seqNo <= bound)
  {
    var changes' := ApplyChanges(ch, cs, channelId).value.changes;
    forall i | 0 <= i < |cs| ensures cs[i].seqNo in changes' {
      LastWriteWins(ch, cs, channelId, cs[i].seqNo);
      assert Writes(cs, cs[i].seqNo);
    }
    forall s | s in changes' ensures s in ch.changes || Writes(cs, s) {
      LastWriteWins(ch, cs, channelId, s);
    }
  }

  /** An accepted push keeps the bound on the change log exactly when its explicit changes stay within its head. */
  lemma ChangeBoundIff(ch: Channel, req: Request, checks: Checks)
    requires Bounded(ch) && Push(ch, ch.row, req, checks).1.None?
    ensures Bounded(Push(ch, ch.row, req, checks).0) <==> ChangesWithinHead(req)
  {
    hide ApplyChanges, ApplyMessages;
    PushKeepsBound(ch, req, checks);
    PushedTables(ch, ch.row, req, checks);
    var start := ch.(row := Some(UpsertRow(ch.row, req.profile, req.head)));
    assert forall i | 0 <= i < |req.messages| :: !ExceedsHead(req.head, req.messages[i]);
    MessageRowsBounded(start, req.messages, req.head.lastSeq);
    var ch1 := ApplyProfile(ApplyMessages(start, req.messages).value, ch.row, req);
    ExplicitRowsBounded(ch1, req.changes, req.profile.channelId, req.head.lastSeq);
  }

  lemma PushKeepsChangeBound(ch: Channel, req: Request, checks: Checks)
    requires Bounded(ch) && ChangesWithinHead(req)
    ensures Bounded(Push(ch, ch.row, req, checks).0)
  {
    if Push(ch, ch.row, req, checks).1.None? {
      ChangeBoundIff(ch, req, checks);
    }
  }

  /** Pushes one after the other, each reading the row that the one before it left. */
  function RunSequential(ch: Channel, reqs: seq<Request>, checks: Checks): Channel
    decreases |reqs|
  {
    if reqs == [] then ch else RunSequential(Push(ch, ch.row, reqs[0], checks).0, reqs[1..], checks)
  }

  /**
   Over any sequential run, `lastSeq` never goes down and bounds every message; it bounds every
   change too as long as no explicit change is numbered above the head it is pushed with.
   */
  lemma {:induction false} SequentialRunKeepsBound(ch: Channel, reqs: seq<Request>, checks: Checks)
    requires MessagesBounded(ch)
    ensures var ch' := RunSequential(ch, reqs, checks);
            && MessagesBounded(ch')
            && (ch.row.Some? ==> ch'.row.Some? && ch.row.value.lastSeq <= ch'.row.value.lastSeq)
            && (Bounded(ch) && (forall i | 0 <= i < |reqs| :: ChangesWithinHead(reqs[i])) ==> Bounded(ch'))
    decreases |reqs|
  {
    hide Push, MessagesBounded, ChangesBounded;
    if reqs == [] {
    } else {
      PushKeepsBound(ch, reqs[0], checks);
      if Bounded(ch) && ChangesWithinHead(reqs[0]) { PushKeepsChangeBound(ch, reqs[0], checks); }
      SequentialRunKeepsBound(Push(ch, ch.row, reqs[0], checks).0, reqs[1..], checks);
    }
  }

  /** Overlapping pushes can take `lastSeq` back: the new row has the pushed number, whatever the row was. */
  lemma OverlapMayRegress(ch: Channel, seen: Option<ChannelRow>, req: Request, checks: Checks)
    requires ch.row.Some? && Push(ch, seen, req, checks).1.None?
    ensures var ch' := Push(ch, seen, req, checks).0;
            && ch'.row.Some?
            && (ch.row.value.lastSeq <= ch'.row.value.lastSeq <==> ch.row.value.lastSeq <= req.head.lastSeq)
            && (seen == ch.row ==> ch.row.value.lastSeq <= ch'.row.value.lastSeq)
  {
    PushedTables(ch, seen, req, checks);
  }

  /** The push contains a message of this id. */
  predicate Pushes(ms: seq<Message>, id: Num)
  {
    exists i | 0 <= i < |ms| :: ms[i].messageId == id
  }

  lemma {:induction false} OverlayAt(messages: map<Num, Message>, ms: seq<Message>, id: Num)
    ensures Pushes(ms, id) ==> id in Overlay(messages, ms) && Overlay(messages, ms)[id] in ms
    ensures !Pushes(ms, id) ==>
              && (id in Overlay(messages, ms) <==> id in messages)
              && (id in messages ==> Overlay(messages, ms)[id] == messages[id])
  {
    if ms == [] {
    } else {
      var front, last := ms[..|ms| - 1], ms[|ms| - 1];
      OverlayAt(messages, front, id);
      assert ms == front + [last];
      if last.messageId == id {
        assert ms[|ms| - 1].messageId == id;
      } else {
        assert Pushes(ms, id) <==> Pushes(front, id) by {
          assert forall i | 0 <= i < |front| :: front[i] == ms[i];
        }
      }
    }
  }

  /**
   With overlapping pushes the new last number bounds every message exactly when it bounds the
   messages that the push leaves as they were.
   */
  lemma OverlapBoundIff(ch: Channel, seen: Option<ChannelRow>, req: Request, checks: Checks)
    requires Push(ch, seen, req, checks).1.None?
    ensures MessagesBounded(Push(ch, seen, req, checks).0)
       <==> forall id | id in ch.messages && !Pushes(req.messages, id) :: ch.messages[id].seqNo <= req.head.lastSeq
  {
    PushedTables(ch, seen, req, checks);
    hide Transact, CheckSigned, Overlay;
    var ch' := Push(ch, seen, req, checks).0;
    assert forall i | 0 <= i < |req.messages| :: !ExceedsHead(req.head, req.messages[i]);
    forall id: Num
      ensures id in ch.messages && !Pushes(req.messages, id) ==>
                id in ch'.messages && ch'.messages[id] == ch.messages[id]
      ensures id in ch'.messages ==>
                ch'.messages[id].seqNo <= req.head.lastSeq || (id in ch.messages && !Pushes(req.messages, id))
    {
      OverlayAt(ch.messages, req.messages, id);
    }
  }

  /** Two pushes that both read the row before either commits: the second takes `lastSeq` from 10 back to 5. */
  lemma LastSeqCanGoBack()
    ensures var (first, err1) := Push(NO_CHANNEL, None, Bare(10, []), LENIENT);
            var (second, err2) := Push(first, None, Bare(5, []), LENIENT);
            && err1 == err2 == None && first.row.Some? && second.row.Some?
            && first.row.value.lastSeq == 10 && second.row.value.lastSeq == 5
  {
  }

  /** A push of one message, numbered and identified by the head's last numbers. */
  function Single(n: Num): Request
  {
    Bare(n, []).(head := Bare(n, []).head.(lastMessageId := 1),
                 messages := [Message([], 1, 1, n, 1, [], 0, false, [], [])])
  }

  /** The same two pushes, the first with a message: it ends up numbered 10 above a last number of 5. */
  lemma MessageCanExceedLastSeq()
    ensures var (first, err1) := Push(NO_CHANNEL, None, Single(10), LENIENT);
            var (second, err2) := Push(first, None, Bare(5, []), LENIENT);
            && err1 == err2 == None && MessagesBounded(first) && !MessagesBounded(second)
  {
    var req := Single(10);
    var m := req.messages[0];
    var start := NO_CHANNEL.(row := Some(UpsertRow(None, req.profile, req.head)));
    assert [m][..0] == [] && [m][1..] == [];
    assert CheckMessages(LENIENT, req.profile, [m]) == None;
    assert ApplyMessages(start, []) == Ok(start);
    assert ApplyMessages(start, [m]) == ApplyMessage(start, m);
    var first := Push(NO_CHANNEL, None, req, LENIENT).0;
    assert 1 in first.messages && first.messages[1].seqNo == 10;
    OverlapBoundIff(first, None, Bare(5, []), LENIENT);
  }

  /**
   If no push comes between reading the row and the transaction, an accepted push of an existing
   channel keeps the owner exactly when profile and head name the same one.
   */
  lemma OwnerIsStable(ch: Channel, req: Request, checks: Checks)
    requires ch.row.Some? && Push(ch, ch.row, req, checks).1.None?
    ensures Push(ch, ch.row, req, checks).0.row.Some?
    ensures Push(ch, ch.row, req, checks).0.row.value.ownerPeerId == ch.row.value.ownerPeerId
       <==> req.profile.ownerPeerId == req.head.ownerPeerId
  {
    PushedTables(ch, ch.row, req, checks);
  }

  /** Whatever row was read, an accepted push keeps the stored owner exactly when its profile names that owner. */
  lemma OwnerIsKeptIff(ch: Channel, seen: Option<ChannelRow>, req: Request, checks: Checks)
    requires ch.row.Some? && Push(ch, seen, req, checks).1.None?
    ensures Push(ch, seen, req, checks).0.row.Some?
    ensures Push(ch, seen, req, checks).0.row.value.ownerPeerId == ch.row.value.ownerPeerId
       <==> req.profile.ownerPeerId == ch.row.value.ownerPeerId
  {
    PushedTables(ch, seen, req, checks);
  }

  /** A push of nothing by the given owner, whose profile and head agree. */
  function Founding(owner: Bytes): Request
  {
    Request(owner, Profile([], owner, 1, [], 1, 0, 0, []), Head([], owner, 1, 0, 1, 0, 0, []), [], [])
  }

  /** Two peers create one channel at once, both before either commits: the second becomes its owner. */
  lemma SecondFounderOwns(a: Bytes, b: Bytes)
    ensures var (first, err1) := Push(NO_CHANNEL, None, Founding(a), LENIENT);
            var (second, err2) := Push(first, None, Founding(b), LENIENT);
            && err1 == err2 == None && first.row.Some? && second.row.Some?
            && first.row.value.ownerPeerId == a && second.row.value.ownerPeerId == b
  {
  }

  /**
   The owner does change: a push of the stored head with another peer's profile and no messages
   is accepted if its signatures hold, and leaves that peer as the owner.
   */
  lemma OwnerFollowsProfile(ch: Channel, req: Request, checks: Checks)
    requires GetHead(ch, req.profile.channelId) == Some(req.head)
    requires CheckSigned(checks, req).None? && req.messages == [] && req.changes == []
    ensures var (ch', err) := Push(ch, ch.row, req, checks);
            err == None && ch'.row.Some? && ch'.row.value.ownerPeerId == req.profile.ownerPeerId == req.remote
  {
  }

  /** The head is read back as pushed exactly when it agrees with the profile on what they share. */
  lemma HeadRoundTrip(ch: Channel, seen: Option<ChannelRow>, req: Request, checks: Checks)
    requires Push(ch, seen, req, checks).1.None?
    ensures GetHead(Push(ch, seen, req, checks).0, req.profile.channelId) == Some(req.head)
       <==> && req.head.ownerPeerId == req.profile.ownerPeerId
            && req.head.ownerVersion == req.profile.ownerVersion
            && req.head.profileVersion == req.profile.profileVersion
  {
    PushedTables(ch, seen, req, checks);
  }

  /** The profile is read back as pushed exactly when the channel is new or was created at the same time. */
  lemma ProfileRoundTrip(ch: Channel, seen: Option<ChannelRow>, req: Request, checks: Checks)
    requires Push(ch, seen, req, checks).1.None?
    ensures GetProfile(Push(ch, seen, req, checks).0, req.profile.channelId) == Some(req.profile)
       <==> ch.row.None? || ch.row.value.createdAt == req.profile.createdAt
  {
    PushedTables(ch, seen, req, checks);
  }
}

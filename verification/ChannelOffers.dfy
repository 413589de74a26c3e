/**
 Whole sessions of a subscriber, without any condition on the order of pushes.

 A push offers a version of a message to the subscriber when it numbers the message above the
 subscriber's cursor of that time. The subscriber ends up with the message table exactly when the
 final version of every message has been offered at least once.
 */
module ChannelOffers {
  import opened Options
  import opened Ascending
  import opened Channels
  import opened ChannelLaws
  import opened ChannelSync

  /** Pushes, each on a row that was read at any earlier time, interleaved with pages. */
  datatype Happening = Pushing(seen: Option<ChannelRow>, req: Request) | Paging(limit: int)

  datatype Offer = Offer(id: Num, version: int)

  ghost function Follow(s: Session, h: Happening, checks: Checks): Session
  {
    match h
    case Pushing(seen, req) => s.(ch := Push(s.ch, seen, req, checks).0)
    case Paging(limit) => s.(sub := Resume(s.ch, s.sub, limit))
  }

  ghost function FollowAll(s: Session, hs: seq<Happening>, checks: Checks): Session
    decreases |hs|
  {
    if hs == [] then s else FollowAll(Follow(s, hs[0], checks), hs[1..], checks)
  }

  /** The versions that a list of messages offers above a cursor. */
  function OffersOf(ms: seq<Message>, after: Num): set<Offer>
  {
    set i | 0 <= i < |ms| && after < ms[i].seqNo :: Offer(ms[i].messageId, ms[i].version)
  }

  /** What an accepted push offers a subscriber. */
  ghost function Offers(s: Session, h: Happening, checks: Checks): set<Offer>
  {
    if h.Pushing? && Push(s.ch, h.seen, h.req, checks).1.None? then OffersOf(h.req.messages, s.sub.after) else {}
  }

  /** Everything that is offered in the course of a session. */
  ghost function Offered(s: Session, hs: seq<Happening>, checks: Checks): set<Offer>
    decreases |hs|
  {
    if hs == [] then {} else Offers(s, hs[0], checks) + Offered(Follow(s, hs[0], checks), hs[1..], checks)
  }

  predicate WithoutExplicitChanges(hs: seq<Happening>)
  {
    forall i | 0 <= i < |hs| :: hs[i].Pushing? ==> hs[i].req.changes == []
  }

  /***** The invariant *****/

  /** What the subscriber has was offered, and is not newer than the message table. */
  ghost predicate HasOffers(ch: Channel, view: View, offered: set<Offer>)
  {
    forall id | id in view ::
      && id in ch.messages && view[id] <= ch.messages[id].version
      && Offer(id, view[id]) in offered
  }

  /** Whatever a row above the cursor mentions was offered. */
  ghost predicate RowsOffered(ch: Channel, after: Num, offered: set<Offer>)
  {
    forall s | s in ch.changes && after < s :: RowOffered(ch.changes[s], offered)
  }

  ghost predicate RowOffered(row: ChangeRow, offered: set<Offer>)
  {
    row.messageId.Some? && row.version.Some? ==> Offer(row.messageId.value, row.version.value) in offered
  }

  /** A final version that was offered has been read, or its row lies above the cursor. */
  ghost predicate OffersHeld(ch: Channel, sub: Subscriber, offered: set<Offer>)
  {
    forall id | id in ch.messages && Offer(id, ch.messages[id].version) in offered ::
      (id in sub.view && sub.view[id] == ch.messages[id].version) || sub.after < ch.messages[id].seqNo
  }

  /** Only versions that the message table has reached were offered. */
  ghost predicate OffersReached(ch: Channel, offered: set<Offer>)
  {
    forall o | o in offered :: o.id in ch.messages && o.version <= ch.messages[o.id].version
  }

  ghost predicate OfferInv(ch: Channel, sub: Subscriber, offered: set<Offer>)
  {
    && ChannelInv(ch)
    && HasOffers(ch, sub.view, offered)
    && RowsOffered(ch, sub.after, offered)
    && OffersHeld(ch, sub, offered)
    && OffersReached(ch, offered)
  }

  /***** Pushes keep it *****/

  function OfferOf(m: Message, after: Num): set<Offer>
  {
    if after < m.seqNo then {Offer(m.messageId, m.version)} else {}
  }

  lemma MessageRowsOffered(ch: Channel, after: Num, offered: set<Offer>, m: Message)
    requires RowsOffered(ch, after, offered) && ApplyMessage(ch, m).Ok?
    ensures RowsOffered(ApplyMessage(ch, m).value, after, offered + OfferOf(m, after))
  {
    var ch', offered' := ApplyMessage(ch, m).value, offered + OfferOf(m, after);
    forall s | s in ch'.changes && after < s ensures RowOffered(ch'.changes[s], offered') {
      if s != m.seqNo { assert RowOffered(ch.changes[s], offered); }
    }
  }

  lemma MessageHeld(ch: Channel, sub: Subscriber, offered: set<Offer>, m: Message)
    requires OffersHeld(ch, sub, offered) && OffersReached(ch, offered) && ApplyMessage(ch, m).Ok?
    ensures OffersHeld(ApplyMessage(ch, m).value, sub, offered + OfferOf(m, sub.after))
  {
    hide SeqTaken, MessageChange;
    var ch', offered' := ApplyMessage(ch, m).value, offered + OfferOf(m, sub.after);
    forall id | id in ch'.messages && Offer(id, ch'.messages[id].version) in offered'
      ensures (id in sub.view && sub.view[id] == ch'.messages[id].version) || sub.after < ch'.messages[id].seqNo
    {
      if id == m.messageId && m.seqNo <= sub.after {
        assert Offer(id, m.version) in offered;
        assert id in ch.messages && m.version == ch.messages[id].version;
      }
    }
  }

  lemma MessageReached(ch: Channel, view: View, after: Num, offered: set<Offer>, m: Message)
    requires HasOffers(ch, view, offered) && OffersReached(ch, offered) && ApplyMessage(ch, m).Ok?
    ensures HasOffers(ApplyMessage(ch, m).value, view, offered + OfferOf(m, after))
    ensures OffersReached(ApplyMessage(ch, m).value, offered + OfferOf(m, after))
  {
    hide SeqTaken, MessageChange;
  }

  lemma MessageOffers(ch: Channel, sub: Subscriber, offered: set<Offer>, m: Message)
    requires OfferInv(ch, sub, offered) && ApplyMessage(ch, m).Ok?
    ensures OfferInv(ApplyMessage(ch, m).value, sub, offered + OfferOf(m, sub.after))
  {
    hide ChannelInv, HasOffers, RowsOffered, OffersHeld, OffersReached, ApplyMessage, OfferOf;
    ApplyMessageKeeps(ch, m);
    MessageRowsOffered(ch, sub.after, offered, m);
    MessageHeld(ch, sub, offered, m);
    MessageReached(ch, sub.view, sub.after, offered, m);
  }

  lemma OffersAppend(ms: seq<Message>, after: Num)
    requires ms != []
    ensures OffersOf(ms, after) == OffersOf(ms[..|ms| - 1], after) + OfferOf(ms[|ms| - 1], after)
  {
    var front, last := ms[..|ms| - 1], ms[|ms| - 1];
    forall o | o in OffersOf(ms, after) ensures o in OffersOf(front, after) + OfferOf(last, after) {
      var i :| 0 <= i < |ms| && after < ms[i].seqNo && o == Offer(ms[i].messageId, ms[i].version);
      if i < |front| { assert front[i] == ms[i]; }
    }
    forall o | o in OffersOf(front, after) ensures o in OffersOf(ms, after) {
      var i :| 0 <= i < |front| && after < front[i].seqNo && o == Offer(front[i].messageId, front[i].version);
      assert ms[i] == front[i];
    }
    assert ms[|ms| - 1] == last;
  }

  lemma {:induction false} MessagesOffer(ch: Channel, sub: Subscriber, offered: set<Offer>, ms: seq<Message>)
    requires OfferInv(ch, sub, offered) && ApplyMessages(ch, ms).Ok?
    ensures OfferInv(ApplyMessages(ch, ms).value, sub, offered + OffersOf(ms, sub.after))
  {
    hide OfferInv, ApplyMessage;
    if ms == [] {
      assert offered + OffersOf(ms, sub.after) == offered;
    } else {
      var front, last := ms[..|ms| - 1], ms[|ms| - 1];
      MessagesOffer(ch, sub, offered, front);
      MessageOffers(ApplyMessages(ch, front).value, sub, offered + OffersOf(front, sub.after), last);
      OffersAppend(ms, sub.after);
      hide OffersOf, OfferOf;
      assert offered + OffersOf(front, sub.after) + OfferOf(last, sub.after) == offered + OffersOf(ms, sub.after);
    }
  }

  lemma ProfileOffers(ch: Channel, sub: Subscriber, offered: set<Offer>, seen: Option<ChannelRow>, req: Request)
    requires OfferInv(ch, sub, offered)
    ensures OfferInv(ApplyProfile(ch, seen, req), sub, offered)
  {
    var ch' := ApplyProfile(ch, seen, req);
    ApplyProfileKeeps(ch, seen, req);
    hide ChannelInv;
    forall s | s in ch'.changes && sub.after < s ensures RowOffered(ch'.changes[s], offered) {
      if s in ch.changes { assert RowOffered(ch.changes[s], offered); }
    }
  }

  lemma RowChangeOffers(ch: Channel, sub: Subscriber, offered: set<Offer>, row: Option<ChannelRow>)
    requires OfferInv(ch, sub, offered)
    ensures OfferInv(ch.(row := row), sub, offered)
  {
    RowIsIrrelevant(ch, row);
    hide ChannelInv;
  }

  lemma PushOffers(s: Session, offered: set<Offer>, seen: Option<ChannelRow>, req: Request, checks: Checks)
    requires OfferInv(s.ch, s.sub, offered) && req.changes == []
    ensures OfferInv(Push(s.ch, seen, req, checks).0, s.sub, offered + Offers(s, Pushing(seen, req), checks))
  {
    hide OfferInv, OffersOf, ApplyMessages, ApplyProfile;
    if Push(s.ch, seen, req, checks).1.None? {
      var start := s.ch.(row := Some(UpsertRow(s.ch.row, req.profile, req.head)));
      RowChangeOffers(s.ch, s.sub, offered, start.row);
      MessagesOffer(start, s.sub, offered, req.messages);
      var ch := ApplyMessages(start, req.messages).value;
      ProfileOffers(ch, s.sub, offered + OffersOf(req.messages, s.sub.after), seen, req);
    } else {
      FailedPush(s.ch, seen, req, checks);
      assert offered + {} == offered;
    }
  }

  /***** Pages keep it *****/

  lemma MentionOffered(ch: Channel, after: Num, offered: set<Offer>, rows: set<Num>, id: Num, v: int)
    requires ChannelInv(ch) && RowsOffered(ch, after, offered) && Mentions(ch.changes, rows, id, v)
    requires forall s | s in rows :: after < s
    ensures Offer(id, v) in offered && id in ch.messages && v <= ch.messages[id].version
  {
    var s :| s in rows && s in ch.changes && ch.changes[s].messageId == Some(id) && ch.changes[s].version == Some(v);
    assert RowOffered(ch.changes[s], offered);
    assert RowBacked(ch, s);
  }

  /** Reading rows above the cursor gives the subscriber only what was offered. */
  lemma ReadingHasOffers(ch: Channel, sub: Subscriber, offered: set<Offer>, view: View, rows: set<Num>)
    requires OfferInv(ch, sub, offered) && ViewFrom(view, sub.view, ch.changes, rows)
    requires forall s | s in rows :: sub.after < s
    ensures HasOffers(ch, view, offered)
  {
    forall id | id in view
      ensures id in ch.messages && view[id] <= ch.messages[id].version && Offer(id, view[id]) in offered
    {
      if id in sub.view && view[id] == sub.view[id] {
      } else {
        MentionOffered(ch, sub.after, offered, rows, id, view[id]);
      }
    }
  }

  /** A message whose final version was offered has been read once all rows up to its own number have been. */
  lemma OfferIsRead(ch: Channel, sub: Subscriber, offered: set<Offer>, view: View, rows: set<Num>, id: Num)
    requires OfferInv(ch, sub, offered) && ViewFrom(view, sub.view, ch.changes, rows) && HasOffers(ch, view, offered)
    requires id in ch.messages && Offer(id, ch.messages[id].version) in offered
    requires sub.after < ch.messages[id].seqNo ==> ch.messages[id].seqNo in rows
    ensures id in view && view[id] == ch.messages[id].version
  {
    var m := ch.messages[id];
    if sub.after < m.seqNo {
      assert OwnRow(ch, id);
      assert Mentions(ch.changes, rows, id, m.version);
    }
  }

  lemma PageOffers(ch: Channel, sub: Subscriber, offered: set<Offer>, limit: int)
    requires OfferInv(ch, sub, offered)
    ensures OfferInv(ch, Resume(ch, sub, limit), offered)
  {
    if ch.row.None? {
      NoPage(ch, sub, limit);
    } else {
      var sub' := Resume(ch, sub, limit);
      NothingRead(sub.view, ch.changes, sub.after);
      ResumeSees(ch, sub.view, sub.after, sub, limit);
      var rows := Between(ch.changes, sub.after, sub'.after);
      ReadingHasOffers(ch, sub, offered, sub'.view, rows);
      hide ViewFrom, Resume;
      forall id | id in ch.messages && Offer(id, ch.messages[id].version) in offered
        ensures (id in sub'.view && sub'.view[id] == ch.messages[id].version) || sub'.after < ch.messages[id].seqNo
      {
        if ch.messages[id].seqNo <= sub'.after {
          assert OwnRow(ch, id);
          OfferIsRead(ch, sub, offered, sub'.view, rows, id);
        }
      }
    }
  }

  /***** Sessions *****/

  lemma {:induction false} SessionOffers(s: Session, hs: seq<Happening>, checks: Checks, offered: set<Offer>)
    requires OfferInv(s.ch, s.sub, offered) && WithoutExplicitChanges(hs)
    ensures var s' := FollowAll(s, hs, checks); OfferInv(s'.ch, s'.sub, offered + Offered(s, hs, checks))
    decreases |hs|
  {
    hide OfferInv, Push, Resume;
    if hs == [] {
      assert offered + {} == offered;
    } else {
      var now := offered + Offers(s, hs[0], checks);
      match hs[0] {
        case Pushing(seen, req) => PushOffers(s, offered, seen, req, checks);
        case Paging(limit) =>
          PageOffers(s.ch, s.sub, offered, limit);
          assert now == offered;
      }
      SessionOffers(Follow(s, hs[0], checks), hs[1..], checks, now);
      hide Offers;
      assert now + Offered(Follow(s, hs[0], checks), hs[1..], checks) == offered + Offered(s, hs, checks);
    }
  }

  /** A channel without a row never got a change. */
  lemma {:induction false} SessionHasRow(s: Session, hs: seq<Happening>, checks: Checks)
    requires HasRow(s.ch)
    ensures HasRow(FollowAll(s, hs, checks).ch)
    decreases |hs|
  {
    hide Push, Resume;
    if hs == [] {
    } else {
      if hs[0].Pushing? { PushHasRow(s.ch, hs[0].seen, hs[0].req, checks); }
      SessionHasRow(Follow(s, hs[0], checks), hs[1..], checks);
    }
  }

  lemma PushHasRow(ch: Channel, seen: Option<ChannelRow>, req: Request, checks: Checks)
    requires HasRow(ch)
    ensures HasRow(Push(ch, seen, req, checks).0)
  {
    if Push(ch, seen, req, checks).1.None? {
      PushedTables(ch, seen, req, checks);
    } else {
      FailedPush(ch, seen, req, checks);
    }
  }

  lemma OwnRowIsNewer(ch: Channel, sub: Subscriber, offered: set<Offer>, id: Num)
    requires OfferInv(ch, sub, offered) && id in ch.messages && sub.after < ch.messages[id].seqNo
    ensures ch.messages[id].seqNo in Newer(ch.changes, sub.after)
  {
    assert OwnRow(ch, id);
  }

  lemma CompleteIffOffered(ch: Channel, sub: Subscriber, offered: set<Offer>, limit: int)
    requires OfferInv(ch, sub, offered) && HasRow(ch)
    ensures SyncToEnd(ch, sub, limit).view == Versions(ch)
       <==> forall id | id in ch.messages :: Offer(id, ch.messages[id].version) in offered
  {
    hide SyncToEnd, ViewFrom, OfferInv, Newer;
    var view, rows := SyncToEnd(ch, sub, limit).view, Newer(ch.changes, sub.after);
    NothingRead(sub.view, ch.changes, sub.after);
    SyncToEndSees(ch, sub.view, sub.after, sub, limit);
    assert forall s | s in rows :: sub.after < s by { NewerIsAbove(ch.changes, sub.after); }
    ReadingHasOffers(ch, sub, offered, view, rows);
    if forall id | id in ch.messages :: Offer(id, ch.messages[id].version) in offered {
      forall id | id in ch.messages ensures id in view && view[id] == ch.messages[id].version {
        if sub.after < ch.messages[id].seqNo { OwnRowIsNewer(ch, sub, offered, id); }
        OfferIsRead(ch, sub, offered, view, rows, id);
      }
    }
  }

  lemma NewerIsAbove(changes: map<Num, ChangeRow>, after: Num)
    ensures forall s | s in Newer(changes, after) :: after < s
  {
  }

  /**
   After any session of pages and pushes without explicit changes, overlapping and ordered in any
   way, a subscriber that fetches its remaining pages has the version of every stored message
   exactly when the final version of each was, at some accepted push of it, numbered above the
   cursor of that time.
   */
  lemma SessionCompleteIff(start: Num, hs: seq<Happening>, checks: Checks, limit: int)
    requires WithoutExplicitChanges(hs)
    ensures var s0 := Session(NO_CHANNEL, Subscriber(map[], start));
            var s := FollowAll(s0, hs, checks);
            SyncToEnd(s.ch, s.sub, limit).view == Versions(s.ch)
            <==> forall id | id in s.ch.messages :: Offer(id, s.ch.messages[id].version) in Offered(s0, hs, checks)
  {
    hide FollowAll, Offered, SyncToEnd;
    var s0 := Session(NO_CHANNEL, Subscriber(map[], start));
    var s := FollowAll(s0, hs, checks);
    SessionOffers(s0, hs, checks, {});
    assert {} + Offered(s0, hs, checks) == Offered(s0, hs, checks);
    SessionHasRow(s0, hs, checks);
    CompleteIffOffered(s.ch, s.sub, Offered(s0, hs, checks), limit);
  }
}

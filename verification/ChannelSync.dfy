/** Incremental sync: pages of the change table, and what a subscriber makes of them. */
module ChannelSync {
  import opened Options
  import opened Ascending
  import opened Channels
  import opened ChannelLaws

  datatype Item = Item(seqNo: Num, row: ChangeRow)

  datatype SyncResult = SyncResult(currentLastSeq: Num, hasMore: bool, nextAfterSeq: Num, items: seq<Item>)

  function PageSize(limit: int): nat
  {
    if limit <= 0 || limit > 500 then 50 else limit
  }

  function Newer(changes: map<Num, ChangeRow>, after: Num): set<Num>
  {
    set s | s in changes && after < s
  }

  function Items(changes: map<Num, ChangeRow>, ns: seq<Num>): (items: seq<Item>)
    requires forall i | 0 <= i < |ns| :: ns[i] in changes
    ensures |items| == |ns| && forall i | 0 <= i < |ns| :: items[i] == Item(ns[i], changes[ns[i]])
  {
    seq(|ns|, i requires 0 <= i < |ns| => Item(ns[i], changes[ns[i]]))
  }

  function Front(ns: seq<Num>, k: nat): seq<Num>
  {
    if |ns| <= k then ns else ns[..k]
  }

  /** A page: the first rows above `after`, and the cursor to continue from. */
  ghost function SyncPage(ch: Channel, after: Num, limit: int): Option<SyncResult>
  {
    match ch.row
    case None => None
    case Some(r) =>
      AscElements(Newer(ch.changes, after));
      var ns := Asc(Newer(ch.changes, after));
      var page := Front(ns, PageSize(limit));
      Some(SyncResult(r.lastSeq, |ns| > PageSize(limit), if page == [] then after else page[|page| - 1],
                      Items(ch.changes, page)))
  }

  /** The length of a page: the limit asked for, or fifty if that is not between one and five hundred. */
  predicate FullLength(limit: int, n: int)
  {
    if 1 <= limit <= 500 then n == limit else n == 50
  }

  /** A page holds rows above the cursor as the change table has them, in order, and none is left out. */
  lemma SyncPageItems(ch: Channel, after: Num, limit: int)
    requires ch.row.Some?
    ensures var page := SyncPage(ch, after, limit).value;
            var items := page.items;
            && (forall i | 0 <= i < |items| ::
                  && after < items[i].seqNo && items[i].seqNo in ch.changes
                  && items[i].row == ch.changes[items[i].seqNo])
            && (forall i, j | 0 <= i < j < |items| :: items[i].seqNo < items[j].seqNo)
            && (forall s | s in ch.changes && after < s <= page.nextAfterSeq ::
                  exists i :: 0 <= i < |items| && items[i].seqNo == s)
  {
    var newer := Newer(ch.changes, after);
    AscElements(newer);
    AscIncreasing(newer);
    PageRows(ch, after, limit);
    hide Asc;
    var page, ns := SyncPage(ch, after, limit).value, Front(Asc(newer), PageSize(limit));
    forall s | s in ch.changes && after < s <= page.nextAfterSeq
      ensures exists i :: 0 <= i < |page.items| && page.items[i].seqNo == s
    {
      assert s in Between(ch.changes, after, page.nextAfterSeq);
      var i :| 0 <= i < |ns| && ns[i] == s;
      assert page.items[i].seqNo == s;
    }
  }

  /**
   What a page says: the last number of the channel's row, the number of its last item as the new
   cursor, and that there is more exactly if there are rows above that; then it is full. It is
   never longer than asked for, and there is none for a channel without a row.
   */
  lemma SyncPageExact(ch: Channel, after: Num, limit: int, size: nat)
    requires FullLength(limit, size)
    ensures SyncPage(ch, after, limit).None? <==> ch.row.None?
    ensures ch.row.Some? ==>
              var page := SyncPage(ch, after, limit).value;
              && page.currentLastSeq == ch.row.value.lastSeq
              && |page.items| <= size && (page.hasMore ==> |page.items| == size)
              && page.nextAfterSeq == (if page.items == [] then after else page.items[|page.items| - 1].seqNo)
              && (page.hasMore <==> exists s :: s in ch.changes && page.nextAfterSeq < s)
  {
    if ch.row.Some? {
      var all := Asc(Newer(ch.changes, after));
      AscElements(Newer(ch.changes, after));
      AscIncreasing(Newer(ch.changes, after));
      PageRows(ch, after, limit);
      hide Asc;
      var page := SyncPage(ch, after, limit).value;
      assert size == PageSize(limit);
      assert forall s :: s in Newer(ch.changes, page.nextAfterSeq) <==> s in ch.changes && page.nextAfterSeq < s;
      if page.hasMore {
        assert all[size - 1] < all[size] && all[size] in ch.changes;
      }
    }
  }

  /***** The subscriber *****/

  type View = map<Num, int>

  /** A subscriber keeps the largest version it has seen of each message. */
  function Merge(view: View, row: ChangeRow): View
  {
    if row.messageId.Some? && row.version.Some?
       && (row.messageId.value in view ==> view[row.messageId.value] < row.version.value)
    then view[row.messageId.value := row.version.value]
    else view
  }

  function MergeAll(view: View, items: seq<Item>): View
  {
    if items == [] then view else Merge(MergeAll(view, items[..|items| - 1]), items[|items| - 1].row)
  }

  ghost predicate Mentions(changes: map<Num, ChangeRow>, rows: set<Num>, id: Num, v: int)
  {
    exists s :: s in rows && s in changes && changes[s].messageId == Some(id) && changes[s].version == Some(v)
  }

  /** `view` is `before` with what the rows mention merged in: for each id the largest version of either. */
  ghost predicate ViewFrom(view: View, before: View, changes: map<Num, ChangeRow>, rows: set<Num>)
  {
    && (forall id | id in view :: (id in before && view[id] == before[id]) || Mentions(changes, rows, id, view[id]))
    && (forall id | id in before :: id in view && before[id] <= view[id])
    && (forall id, v | Mentions(changes, rows, id, v) :: id in view && v <= view[id])
  }

  /** `view` holds exactly the ids that the rows mention, each with its largest version. */
  ghost predicate ViewOf(view: View, changes: map<Num, ChangeRow>, rows: set<Num>)
  {
    ViewFrom(view, map[], changes, rows)
  }

  lemma ViewUnique(a: View, b: View, changes: map<Num, ChangeRow>, rows: set<Num>)
    requires ViewOf(a, changes, rows) && ViewOf(b, changes, rows)
    ensures a == b
  {
  }

  lemma MergeSees(view: View, before: View, changes: map<Num, ChangeRow>, rows: set<Num>, s: Num)
    requires ViewFrom(view, before, changes, rows) && s in changes
    ensures ViewFrom(Merge(view, changes[s]), before, changes, rows + {s})
  {
    var view', rows' := Merge(view, changes[s]), rows + {s};
    forall id | id in view'
      ensures (id in before && view'[id] == before[id]) || Mentions(changes, rows', id, view'[id])
    {
      if id in view && view'[id] == view[id] {
        if Mentions(changes, rows, id, view[id]) {
          var t :| t in rows && t in changes
                   && changes[t].messageId == Some(id) && changes[t].version == Some(view[id]);
          assert t in rows';
        }
      } else {
        assert s in rows';
      }
    }
    forall id, v | Mentions(changes, rows', id, v) ensures id in view' && v <= view'[id] {
      var t :| t in rows' && t in changes && changes[t].messageId == Some(id) && changes[t].version == Some(v);
      if t != s { assert Mentions(changes, rows, id, v); }
    }
  }

  lemma {:induction false} MergeAllSees(view: View, before: View, changes: map<Num, ChangeRow>, rows: set<Num>,
                                        ns: seq<Num>)
    requires ViewFrom(view, before, changes, rows) && forall i | 0 <= i < |ns| :: ns[i] in changes
    ensures ViewFrom(MergeAll(view, Items(changes, ns)), before, changes, rows + Elements(ns))
  {
    hide ViewFrom, Merge;
    if ns == [] {
      assert rows + Elements(ns) == rows;
    } else {
      var front, s := ns[..|ns| - 1], ns[|ns| - 1];
      MergeAllSees(view, before, changes, rows, front);
      assert Items(changes, ns)[..|ns| - 1] == Items(changes, front);
      assert ns == front + [s];
      assert rows + Elements(ns) == rows + Elements(front) + {s};
      MergeSees(MergeAll(view, Items(changes, front)), before, changes, rows + Elements(front), s);
    }
  }

  function Between(changes: map<Num, ChangeRow>, lo: Num, hi: Num): set<Num>
  {
    set s | s in changes && lo < s <= hi
  }

  datatype Subscriber = Subscriber(view: View, after: Num)

  ghost function Resume(ch: Channel, sub: Subscriber, limit: int): Subscriber
  {
    match SyncPage(ch, sub.after, limit)
    case None => sub
    case Some(page) => Subscriber(MergeAll(sub.view, page.items), page.nextAfterSeq)
  }

  ghost predicate CaughtUp(ch: Channel, sub: Subscriber, limit: int)
  {
    match SyncPage(ch, sub.after, limit)
    case None => true
    case Some(page) => !page.hasMore
  }

  /** The rows of a page are the ones between its cursors, and a last page leaves none. */
  lemma PageRows(ch: Channel, after: Num, limit: int)
    requires ch.row.Some?
    ensures var page := SyncPage(ch, after, limit).value;
            var ns := Front(Asc(Newer(ch.changes, after)), PageSize(limit));
            && after <= page.nextAfterSeq
            && (page.nextAfterSeq == after || page.nextAfterSeq in ch.changes)
            && Elements(ns) == Between(ch.changes, after, page.nextAfterSeq)
            && (!page.hasMore ==> Newer(ch.changes, page.nextAfterSeq) == {})
            && (page.hasMore ==> after < page.nextAfterSeq)
  {
    var newer := Newer(ch.changes, after);
    var all := Asc(newer);
    AscElements(newer);
    AscIncreasing(newer);
    var ns := Front(all, PageSize(limit));
    forall s | s in Between(ch.changes, after, SyncPage(ch, after, limit).value.nextAfterSeq) ensures s in ns {
      var j := AscFind(newer, s);
      assert j < |ns| ==> ns[j] == s;
    }
    if |all| <= PageSize(limit) {
      forall s | s in newer ensures s <= SyncPage(ch, after, limit).value.nextAfterSeq {
        var j := AscFind(newer, s);
      }
      assert forall s | s in ch.changes :: s in newer || s <= after;
    }
  }

  /** The subscriber's view is right for the rows up to its cursor, and the cursor is not ahead of the channel. */
  ghost predicate Follows(ch: Channel, start: Num, sub: Subscriber)
  {
    && start <= sub.after
    && ViewOf(sub.view, ch.changes, Between(ch.changes, start, sub.after))
    && (sub.after == start || (ch.row.Some? && sub.after <= ch.row.value.lastSeq))
  }

  /** Merging a page takes in exactly the rows between its cursors. */
  lemma ResumeSees(ch: Channel, before: View, lo: Num, sub: Subscriber, limit: int)
    requires ch.row.Some? && lo <= sub.after
    requires ViewFrom(sub.view, before, ch.changes, Between(ch.changes, lo, sub.after))
    ensures var sub' := Resume(ch, sub, limit);
            && sub.after <= sub'.after
            && ViewFrom(sub'.view, before, ch.changes, Between(ch.changes, lo, sub'.after))
            && (CaughtUp(ch, sub, limit) ==> Between(ch.changes, lo, sub'.after) == Newer(ch.changes, lo))
  {
    var page := SyncPage(ch, sub.after, limit).value;
    var ns := Front(Asc(Newer(ch.changes, sub.after)), PageSize(limit));
    AscElements(Newer(ch.changes, sub.after));
    PageRows(ch, sub.after, limit);
    hide ViewFrom, Asc;
    MergeAllSees(sub.view, before, ch.changes, Between(ch.changes, lo, sub.after), ns);
    assert Between(ch.changes, lo, sub.after) + Between(ch.changes, sub.after, page.nextAfterSeq)
        == Between(ch.changes, lo, page.nextAfterSeq);
    assert forall s | s in ch.changes :: s in Newer(ch.changes, page.nextAfterSeq) || s <= page.nextAfterSeq;
  }

  lemma ResumeFollows(ch: Channel, start: Num, sub: Subscriber, limit: int)
    requires Bounded(ch) && Follows(ch, start, sub)
    ensures Follows(ch, start, Resume(ch, sub, limit))
  {
    if ch.row.Some? {
      PageRows(ch, sub.after, limit);
      hide ViewFrom, Asc;
      ResumeSees(ch, map[], start, sub, limit);
    }
  }

  /***** Pushes between pages *****/

  /** What a subscriber reads from a row. */
  ghost predicate SameMention(changes: map<Num, ChangeRow>, changes': map<Num, ChangeRow>, s: Num)
  {
    if s in changes then
      s in changes' && changes'[s].messageId == changes[s].messageId && changes'[s].version == changes[s].version
    else s in changes' ==> changes'[s].messageId == None
  }

  /** Every message of the push is numbered above everything that the channel has had. */
  predicate Appends(ch: Channel, req: Request)
  {
    && req.changes == []
    && (ch.row.Some? ==> forall i | 0 <= i < |req.messages| :: req.messages[i].seqNo > ch.row.value.lastSeq)
  }

  lemma {:induction false} ApplyMessagesLeavesRows(ch: Channel, ms: seq<Message>, bound: Num, s: Num)
    requires ApplyMessages(ch, ms).Ok? && s <= bound
    requires forall i | 0 <= i < |ms| :: ms[i].seqNo > bound
    ensures var changes' := ApplyMessages(ch, ms).value.changes;
            (s in changes' <==> s in ch.changes) && (s in ch.changes ==> changes'[s] == ch.changes[s])
  {
    if ms == [] {
    } else {
      ApplyMessagesLeavesRows(ch, ms[..|ms| - 1], bound, s);
    }
  }

  lemma PushLeavesOldRows(ch: Channel, req: Request, checks: Checks, s: Num)
    requires ch.row.Some? && Appends(ch, req) && s <= ch.row.value.lastSeq
    ensures SameMention(ch.changes, Push(ch, ch.row, req, checks).0.changes, s)
  {
    var start := ch.(row := Some(UpsertRow(ch.row, req.profile, req.head)));
    if ApplyMessages(start, req.messages).Ok? {
      ApplyMessagesLeavesRows(start, req.messages, ch.row.value.lastSeq, s);
    }
  }

  lemma SameMentionsSameView(view: View, changes: map<Num, ChangeRow>, changes': map<Num, ChangeRow>, lo: Num, hi: Num)
    requires ViewOf(view, changes, Between(changes, lo, hi))
    requires forall s: Num | lo < s <= hi :: SameMention(changes, changes', s)
    ensures ViewOf(view, changes', Between(changes', lo, hi))
  {
    forall id: Num, v | Mentions(changes, Between(changes, lo, hi), id, v)
      ensures Mentions(changes', Between(changes', lo, hi), id, v)
    {
      var s :| s in Between(changes, lo, hi) && changes[s].messageId == Some(id) && changes[s].version == Some(v);
      assert SameMention(changes, changes', s);
      assert s in Between(changes', lo, hi);
    }
    forall id: Num, v | Mentions(changes', Between(changes', lo, hi), id, v)
      ensures Mentions(changes, Between(changes, lo, hi), id, v)
    {
      var s :| s in Between(changes', lo, hi) && changes'[s].messageId == Some(id) && changes'[s].version == Some(v);
      assert SameMention(changes, changes', s);
      assert s in Between(changes, lo, hi);
    }
  }

  lemma PushFollows(ch: Channel, start: Num, sub: Subscriber, req: Request, checks: Checks)
    requires Bounded(ch) && Follows(ch, start, sub) && Appends(ch, req)
    ensures Follows(Push(ch, ch.row, req, checks).0, start, sub)
  {
    var ch' := Push(ch, ch.row, req, checks).0;
    PushKeepsBound(ch, req, checks);
    forall s: Num | start < s <= sub.after ensures SameMention(ch.changes, ch'.changes, s) {
      PushLeavesOldRows(ch, req, checks, s);
    }
    hide Push, ViewOf;
    SameMentionsSameView(sub.view, ch.changes, ch'.changes, start, sub.after);
  }

  /***** Sessions *****/

  /** Pushes, each reading the row it commits on, interleaved with the pages of one subscriber. */
  datatype Event = Pushed(req: Request) | Synced(limit: int)

  datatype Session = Session(ch: Channel, sub: Subscriber)

  ghost function Advance(s: Session, e: Event, checks: Checks): Session
  {
    match e
    case Pushed(req) => s.(ch := Push(s.ch, s.ch.row, req, checks).0)
    case Synced(limit) => s.(sub := Resume(s.ch, s.sub, limit))
  }

  ghost predicate Orderly(s: Session, events: seq<Event>, checks: Checks)
    decreases |events|
  {
    events == [] ||
    (&& (events[0].Pushed? && Push(s.ch, s.ch.row, events[0].req, checks).1.None? ==> Appends(s.ch, events[0].req))
     && Orderly(Advance(s, events[0], checks), events[1..], checks))
  }

  ghost function RunSession(s: Session, events: seq<Event>, checks: Checks): Session
    decreases |events|
  {
    if events == [] then s else RunSession(Advance(s, events[0], checks), events[1..], checks)
  }

  ghost predicate SessionInv(s: Session, start: Num)
  {
    ChannelInv(s.ch) && Bounded(s.ch) && Follows(s.ch, start, s.sub)
  }

  lemma {:induction false} SessionKeeps(s: Session, events: seq<Event>, checks: Checks, start: Num)
    requires SessionInv(s, start) && Orderly(s, events, checks)
    ensures SessionInv(RunSession(s, events, checks), start)
    decreases |events|
  {
    hide ChannelInv, Bounded, Follows, Push, Resume;
    if events == [] {
    } else {
      match events[0] {
        case Pushed(req) =>
          if Push(s.ch, s.ch.row, req, checks).1.None? {
            PushKeeps(s.ch, s.ch.row, req, checks);
            PushKeepsChangeBound(s.ch, req, checks);
            PushFollows(s.ch, start, s.sub, req, checks);
          } else {
            FailedPush(s.ch, s.ch.row, req, checks);
          }
        case Synced(limit) =>
          ResumeFollows(s.ch, start, s.sub, limit);
      }
      SessionKeeps(Advance(s, events[0], checks), events[1..], checks, start);
    }
  }

  lemma FailedPush(ch: Channel, seen: Option<ChannelRow>, req: Request, checks: Checks)
    requires Push(ch, seen, req, checks).1.Some?
    ensures Push(ch, seen, req, checks).0 == ch
  {
  }

  lemma NewSession(start: Num)
    ensures SessionInv(Session(NO_CHANNEL, Subscriber(map[], start)), start)
  {
  }

  /** The versions in the message table. */
  function Versions(ch: Channel): View
  {
    map id | id in ch.messages :: ch.messages[id].version
  }

  lemma CompleteViewIsTable(ch: Channel, start: Num, view: View)
    requires ChannelInv(ch) && ViewOf(view, ch.changes, Newer(ch.changes, start))
    requires forall s | s in ch.changes :: start < s
    ensures view == Versions(ch)
  {
    forall id | id in ch.messages ensures id in view && ch.messages[id].version <= view[id] {
      assert OwnRow(ch, id);
      assert Mentions(ch.changes, Newer(ch.changes, start), id, ch.messages[id].version);
    }
    forall id | id in view ensures id in ch.messages && view[id] <= ch.messages[id].version {
      assert Mentions(ch.changes, Newer(ch.changes, start), id, view[id]);
      var s :| s in Newer(ch.changes, start)
               && ch.changes[s].messageId == Some(id) && ch.changes[s].version == Some(view[id]);
      assert RowBacked(ch, s);
    }
  }

  /** Fetching pages until none is left. */
  ghost function SyncToEnd(ch: Channel, sub: Subscriber, limit: int): Subscriber
    decreases Newer(ch.changes, sub.after)
  {
    var sub' := Resume(ch, sub, limit);
    if CaughtUp(ch, sub, limit) then sub' else
      PageRows(ch, sub.after, limit);
      NewerShrinks(ch.changes, sub.after, sub'.after);
      SyncToEnd(ch, sub', limit)
  }

  lemma NewerShrinks(changes: map<Num, ChangeRow>, a: Num, b: Num)
    requires a < b && b in changes
    ensures Newer(changes, b) < Newer(changes, a)
  {
    assert b in Newer(changes, a) && b !in Newer(changes, b);
  }

  /** A channel that has no row has no changes either. */
  ghost predicate HasRow(ch: Channel)
  {
    ch.row.None? ==> ch.changes == map[]
  }

  /** Fetching the remaining pages merges every row above the cursor into what was known before. */
  lemma {:induction false} SyncToEndSees(ch: Channel, before: View, lo: Num, sub: Subscriber, limit: int)
    requires HasRow(ch) && lo <= sub.after
    requires ViewFrom(sub.view, before, ch.changes, Between(ch.changes, lo, sub.after))
    ensures ViewFrom(SyncToEnd(ch, sub, limit).view, before, ch.changes, Newer(ch.changes, lo))
    decreases Newer(ch.changes, sub.after)
  {
    hide ViewFrom, Resume;
    if ch.row.None? {
      assert Newer(ch.changes, lo) == Between(ch.changes, lo, sub.after) == {};
      assert Resume(ch, sub, limit) == sub by { NoPage(ch, sub, limit); }
    } else if CaughtUp(ch, sub, limit) {
      ResumeSees(ch, before, lo, sub, limit);
    } else {
      ResumeSees(ch, before, lo, sub, limit);
      PageStep(ch, sub, limit);
      SyncToEndSees(ch, before, lo, Resume(ch, sub, limit), limit);
    }
  }

  lemma NoPage(ch: Channel, sub: Subscriber, limit: int)
    requires ch.row.None?
    ensures Resume(ch, sub, limit) == sub && CaughtUp(ch, sub, limit)
  {
  }

  lemma SyncToEndCompletes(ch: Channel, start: Num, sub: Subscriber, limit: int)
    requires Bounded(ch) && Follows(ch, start, sub)
    ensures ViewOf(SyncToEnd(ch, sub, limit).view, ch.changes, Newer(ch.changes, start))
  {
    SyncToEndSees(ch, map[], start, sub, limit);
  }

  lemma PageStep(ch: Channel, sub: Subscriber, limit: int)
    requires !CaughtUp(ch, sub, limit)
    ensures Newer(ch.changes, Resume(ch, sub, limit).after) < Newer(ch.changes, sub.after)
  {
  }

  /**
   Resumable sync: after any orderly interleaving of pushes and pages, a subscriber that fetches
   its remaining pages has the same view as one that starts over, and if the start lies below
   every change, that view is exactly the version of every stored message.
   */
  lemma ResumableSync(start: Num, events: seq<Event>, checks: Checks, limit: int, limit': int)
    requires Orderly(Session(NO_CHANNEL, Subscriber(map[], start)), events, checks)
    ensures var s := RunSession(Session(NO_CHANNEL, Subscriber(map[], start)), events, checks);
            var resumed := SyncToEnd(s.ch, s.sub, limit).view;
            && resumed == SyncToEnd(s.ch, Subscriber(map[], start), limit').view
            && ((forall c | c in s.ch.changes :: start < c) ==> resumed == Versions(s.ch))
  {
    hide ViewFrom, Follows, Bounded, RunSession, Orderly, SyncToEnd, ChannelInv;
    NewSession(start);
    SessionKeeps(Session(NO_CHANNEL, Subscriber(map[], start)), events, checks, start);
    var s := RunSession(Session(NO_CHANNEL, Subscriber(map[], start)), events, checks);
    FreshFollows(s.ch, start);
    SyncToEndCompletes(s.ch, start, s.sub, limit);
    SyncToEndCompletes(s.ch, start, Subscriber(map[], start), limit');
    ViewUnique(SyncToEnd(s.ch, s.sub, limit).view, SyncToEnd(s.ch, Subscriber(map[], start), limit').view,
               s.ch.changes, Newer(s.ch.changes, start));
    if forall c | c in s.ch.changes :: start < c {
      CompleteViewIsTable(s.ch, start, SyncToEnd(s.ch, s.sub, limit).view);
    }
  }

  lemma FreshFollows(ch: Channel, start: Num)
    ensures Follows(ch, start, Subscriber(map[], start))
  {
  }

  /***** Exactly when a push reaches a subscriber *****/

  /** Message `id` is new in `after`, or has a larger version there. */
  predicate IsNews(before: map<Num, Message>, after: map<Num, Message>, id: Num)
  {
    id in after && (id in before ==> before[id].version < after[id].version)
  }

  /** A row with the newest version of a message that is news lies at or below the message's own number. */
  ghost predicate NewsIsBelow(ch: Channel, ch': Channel)
  {
    forall s: Num, id: Num | s in ch'.changes && IsNews(ch.messages, ch'.messages, id) ::
      ch'.changes[s].messageId == Some(id) && ch'.changes[s].version == Some(ch'.messages[id].version) ==>
        s <= ch'.messages[id].seqNo
  }

  lemma NewsStep(ch: Channel, front: Channel, m: Message)
    requires ChannelInv(front) && NewsIsBelow(ch, front) && MessagesGrow(ch, front) && ApplyMessage(front, m).Ok?
    ensures NewsIsBelow(ch, ApplyMessage(front, m).value)
  {
    var ch' := ApplyMessage(front, m).value;
    forall s: Num, id: Num | s in ch'.changes && IsNews(ch.messages, ch'.messages, id)
                   && ch'.changes[s].messageId == Some(id) && ch'.changes[s].version == Some(ch'.messages[id].version)
      ensures s <= ch'.messages[id].seqNo
    {
      if s != m.seqNo {
        assert RowBacked(front, s);
        assert IsNews(ch.messages, front.messages, id);
      }
    }
  }

  lemma {:induction false} ApplyMessagesNews(ch: Channel, ms: seq<Message>)
    requires ChannelInv(ch) && ApplyMessages(ch, ms).Ok?
    ensures NewsIsBelow(ch, ApplyMessages(ch, ms).value)
  {
    hide ChannelInv, ApplyMessage;
    if ms == [] {
    } else {
      var front := ApplyMessages(ch, ms[..|ms| - 1]).value;
      ApplyMessagesNews(ch, ms[..|ms| - 1]);
      ApplyMessagesKeeps(ch, ms[..|ms| - 1]);
      NewsStep(ch, front, ms[|ms| - 1]);
    }
  }

  lemma PushNews(ch: Channel, seen: Option<ChannelRow>, req: Request, checks: Checks)
    requires ChannelInv(ch) && req.changes == [] && Push(ch, seen, req, checks).1.None?
    ensures NewsIsBelow(ch, Push(ch, seen, req, checks).0)
  {
    hide ChannelInv, NewsIsBelow;
    var start := ch.(row := Some(UpsertRow(ch.row, req.profile, req.head)));
    RowIsIrrelevant(ch, start.row);
    ApplyMessagesNews(start, req.messages);
    NewsIgnoresRows(ch, start, ApplyMessages(start, req.messages).value);
    var ch1 := ApplyMessages(start, req.messages).value;
    if req.messages == [] { NoNews(ch, Push(ch, seen, req, checks).0); }
  }

  lemma NewsIgnoresRows(ch: Channel, start: Channel, ch': Channel)
    requires start.messages == ch.messages && NewsIsBelow(start, ch')
    ensures NewsIsBelow(ch, ch')
  {
  }

  lemma NoNews(ch: Channel, ch': Channel)
    requires ch'.messages == ch.messages
    ensures NewsIsBelow(ch, ch')
  {
  }

  lemma MentionIsOld(ch: Channel, rows: set<Num>, id: Num, v: int)
    requires LogAgrees(ch) && Mentions(ch.changes, rows, id, v)
    ensures id in ch.messages && v <= ch.messages[id].version
  {
    var s :| s in rows && s in ch.changes && ch.changes[s].messageId == Some(id) && ch.changes[s].version == Some(v);
    assert RowBacked(ch, s);
  }

  /** What a subscriber has to do with a channel that has grown: its old view, plus the rows above its cursor. */
  ghost predicate Continues(ch: Channel, ch': Channel, start: Num, sub: Subscriber, view: View)
  {
    && ChannelInv(ch) && ChannelInv(ch') && MessagesGrow(ch, ch')
    && start <= sub.after && (forall s | s in ch.changes :: start < s)
    && ViewOf(sub.view, ch.changes, Between(ch.changes, start, sub.after))
    && ViewFrom(view, sub.view, ch'.changes, Newer(ch'.changes, sub.after))
  }

  /** A subscriber never knows more than the message table. */
  lemma ViewIsBehind(ch: Channel, ch': Channel, start: Num, sub: Subscriber, view: View, id: Num)
    requires Continues(ch, ch', start, sub, view) && id in view
    ensures id in ch'.messages && view[id] <= ch'.messages[id].version
  {
    if id in sub.view && view[id] == sub.view[id] {
      MentionIsOld(ch, Between(ch.changes, start, sub.after), id, view[id]);
    } else {
      MentionIsOld(ch', Newer(ch'.changes, sub.after), id, view[id]);
    }
  }

  lemma AheadIsSeen(ch: Channel, ch': Channel, start: Num, sub: Subscriber, view: View, id: Num)
    requires Continues(ch, ch', start, sub, view) && id in ch'.messages
    requires IsNews(ch.messages, ch'.messages, id) ==> sub.after < ch'.messages[id].seqNo
    ensures id in view && ch'.messages[id].version <= view[id]
  {
    var m := ch'.messages[id];
    assert OwnRow(ch', id);
    if sub.after < m.seqNo {
      assert Mentions(ch'.changes, Newer(ch'.changes, sub.after), id, m.version);
    } else {
      assert OwnRow(ch, id);
      assert ch.messages[id].seqNo in Between(ch.changes, start, sub.after);
      assert Mentions(ch.changes, Between(ch.changes, start, sub.after), id, m.version);
    }
  }

  lemma SeenIsAhead(ch: Channel, ch': Channel, start: Num, sub: Subscriber, view: View, id: Num)
    requires Continues(ch, ch', start, sub, view) && NewsIsBelow(ch, ch') && IsNews(ch.messages, ch'.messages, id)
    requires id in view && view[id] == ch'.messages[id].version
    ensures sub.after < ch'.messages[id].seqNo
  {
    if id in sub.view && view[id] == sub.view[id] {
      MentionIsOld(ch, Between(ch.changes, start, sub.after), id, view[id]);
    } else {
      assert Mentions(ch'.changes, Newer(ch'.changes, sub.after), id, view[id]);
    }
  }

  lemma SeenIffAhead(ch: Channel, ch': Channel, start: Num, sub: Subscriber, view: View)
    requires Continues(ch, ch', start, sub, view) && NewsIsBelow(ch, ch')
    ensures view == Versions(ch')
       <==> forall id | IsNews(ch.messages, ch'.messages, id) :: sub.after < ch'.messages[id].seqNo
  {
    hide Continues, NewsIsBelow;
    if view == Versions(ch') {
      forall id | IsNews(ch.messages, ch'.messages, id) ensures sub.after < ch'.messages[id].seqNo {
        SeenIsAhead(ch, ch', start, sub, view, id);
      }
    }
    if forall id | IsNews(ch.messages, ch'.messages, id) :: sub.after < ch'.messages[id].seqNo {
      forall id | id in ch'.messages ensures id in view && ch'.messages[id].version <= view[id] {
        AheadIsSeen(ch, ch', start, sub, view, id);
      }
      forall id | id in view ensures id in ch'.messages && view[id] <= ch'.messages[id].version {
        ViewIsBehind(ch, ch', start, sub, view, id);
      }
    }
  }

  /**
   After any accepted push without explicit changes, a subscriber that follows the channel from
   below its first row and fetches its remaining pages has the version of every stored message
   exactly when every message that the push adds or raises is numbered above its cursor.
   */
  lemma PushIsSeenIffAhead(ch: Channel, seen: Option<ChannelRow>, req: Request, checks: Checks,
                           start: Num, sub: Subscriber, limit: int)
    requires ChannelInv(ch) && Follows(ch, start, sub) && forall s | s in ch.changes :: start < s
    requires req.changes == [] && Push(ch, seen, req, checks).1.None?
    ensures var ch' := Push(ch, seen, req, checks).0;
            var table := Overlay(ch.messages, req.messages);
            SyncToEnd(ch', sub, limit).view == Versions(ch')
            <==> forall id | IsNews(ch.messages, table, id) :: sub.after < table[id].seqNo
  {
    var ch' := Push(ch, seen, req, checks).0;
    PushKeeps(ch, seen, req, checks);
    PushedTables(ch, seen, req, checks);
    PushNews(ch, seen, req, checks);
    hide Push, NewsIsBelow, ChannelInv, ViewFrom;
    assert ViewFrom(sub.view, sub.view, ch'.changes, Between(ch'.changes, sub.after, sub.after)) by {
      NothingRead(sub.view, ch'.changes, sub.after);
    }
    SyncToEndSees(ch', sub.view, sub.after, sub, limit);
    SeenIffAhead(ch, ch', start, sub, SyncToEnd(ch', sub, limit).view);
  }

  lemma NothingRead(view: View, changes: map<Num, ChangeRow>, after: Num)
    ensures ViewFrom(view, view, changes, Between(changes, after, after))
  {
  }

  /***** A message that is missed *****/

  function Post(id: Num, n: Num): Message
  {
    Message([], id, 1, n, 1, [], 0, false, [], [])
  }

  /** A push of one message under a head of last number 10. */
  function Posting(m: Message): Request
  {
    Request([], Profile([], [], 1, [], 1, 0, 0, []), Head([], [], 1, 2, 1, 10, 0, []), [m], [])
  }

  lemma PostingIsAccepted(ch: Channel, m: Message)
    requires (ch.row.Some? ==> ch.row.value.lastSeq == 10 && ch.row.value.ownerPeerId == [])
    requires m == Post(m.messageId, m.seqNo) && m.messageId <= 2 && m.seqNo <= 10
    requires m.messageId !in ch.messages && forall id | id in ch.messages :: ch.messages[id].seqNo != m.seqNo
    ensures var (ch', err) := Push(ch, ch.row, Posting(m), LENIENT);
            && err == None && ch'.row == Some(UpsertRow(ch.row, Posting(m).profile, Posting(m).head))
            && ch'.messages == ch.messages[m.messageId := m]
            && ch'.changes == ch.changes[m.seqNo := MessageChange(ch.changes, m)]
  {
    var req := Posting(m);
    var start := ch.(row := Some(UpsertRow(ch.row, req.profile, req.head)));
    assert [m][..0] == [] && [m][1..] == [];
    assert CheckMessages(LENIENT, req.profile, [m]) == None;
    assert ApplyMessages(start, []) == Ok(start);
    assert ApplyMessages(start, [m]) == ApplyMessage(start, m);
  }

  /** A subscriber has read message 1, numbered 10; message 2, numbered 5, is accepted, and a sync does not show it. */
  lemma LateMessageIsMissed(limit: int)
    ensures var (ch, err1) := Push(NO_CHANNEL, None, Posting(Post(1, 10)), LENIENT);
            var (ch', err2) := Push(ch, ch.row, Posting(Post(2, 5)), LENIENT);
            var sub := Resume(ch, Subscriber(map[], 0), 50);
            && err1 == err2 == None && 2 in ch'.messages
            && SyncToEnd(ch', sub, limit).view != Versions(ch')
  {
    PostingIsAccepted(NO_CHANNEL, Post(1, 10));
    var ch := Push(NO_CHANNEL, None, Posting(Post(1, 10)), LENIENT).0;
    PostingIsAccepted(ch, Post(2, 5));
    PushKeeps(NO_CHANNEL, None, Posting(Post(1, 10)), LENIENT);
    PushKeepsChangeBound(NO_CHANNEL, Posting(Post(1, 10)), LENIENT);
    FreshFollows(ch, 0);
    ResumeFollows(ch, 0, Subscriber(map[], 0), 50);
    ReadsTen(ch);
    var sub := Resume(ch, Subscriber(map[], 0), 50);
    PushIsSeenIffAhead(ch, ch.row, Posting(Post(2, 5)), LENIENT, 0, sub, limit);
    PushedTables(ch, ch.row, Posting(Post(2, 5)), LENIENT);
    assert IsNews(ch.messages, Overlay(ch.messages, [Post(2, 5)]), 2);
  }

  lemma ReadsTen(ch: Channel)
    requires ch.row.Some? && ch.changes.Keys == {10}
    ensures Resume(ch, Subscriber(map[], 0), 50).after == 10
  {
    AscUnique([10], Newer(ch.changes, 0));
  }
}

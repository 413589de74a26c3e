/** What a push is answered with and which rows it writes, in terms of the request and the stored tables. */
module ChannelAnswers {
  import opened ByteOrder
  import opened Options
  import opened Ascending
  import opened Channels
  import opened ChannelLaws

  /***** Before the transaction *****/

  ghost predicate Addressed(checks: Checks, req: Request)
  {
    checks.channelId(req.profile.channelId) && req.profile.channelId == req.head.channelId
  }

  /** The remote is the owner that the profile names, and profile and head are signed. */
  ghost predicate Founded(checks: Checks, req: Request)
  {
    && Addressed(checks, req) && req.remote == req.profile.ownerPeerId
    && checks.profile(req.profile) && checks.head(req.head)
  }

  /** The message is of this channel, by its owner, of the one owner version, and signed. */
  ghost predicate Sound(checks: Checks, p: Profile, m: Message)
  {
    && m.channelId == p.channelId && m.authorPeerId == p.ownerPeerId && m.ownerVersion == 1
    && checks.message(p.ownerPeerId, m)
  }

  ghost predicate AllSound(checks: Checks, req: Request)
  {
    forall i | 0 <= i < |req.messages| :: Sound(checks, req.profile, req.messages[i])
  }

  ghost predicate FirstUnsound(checks: Checks, p: Profile, ms: seq<Message>, i: nat)
  {
    i < |ms| && !Sound(checks, p, ms[i]) && forall j | 0 <= j < i :: Sound(checks, p, ms[j])
  }

  /** The first unsound message is of another channel, or by the owner in another owner version. */
  ghost predicate Malformed(checks: Checks, req: Request)
  {
    exists i: nat | FirstUnsound(checks, req.profile, req.messages, i) ::
      var m := req.messages[i];
      m.channelId != req.profile.channelId || (m.authorPeerId == req.profile.ownerPeerId && m.ownerVersion != 1)
  }

  /** The first unsound message is of this channel, but by somebody else. */
  ghost predicate Ghosted(checks: Checks, req: Request)
  {
    exists i: nat | FirstUnsound(checks, req.profile, req.messages, i) ::
      var m := req.messages[i];
      m.channelId == req.profile.channelId && m.authorPeerId != req.profile.ownerPeerId
  }

  /** The first unsound message lacks nothing but a signature. */
  ghost predicate Unsigned(checks: Checks, req: Request)
  {
    exists i: nat | FirstUnsound(checks, req.profile, req.messages, i) ::
      var m := req.messages[i];
      m.channelId == req.profile.channelId && m.authorPeerId == req.profile.ownerPeerId && m.ownerVersion == 1
  }

  lemma UnsoundOrNot(checks: Checks, req: Request)
    ensures AllSound(checks, req) || Malformed(checks, req) || Ghosted(checks, req) || Unsigned(checks, req)
  {
    if i: nat :| i < |req.messages| && !Sound(checks, req.profile, req.messages[i]) {
      var k := FindUnsound(checks, req.profile, req.messages, i);
    }
  }

  lemma FindUnsound(checks: Checks, p: Profile, ms: seq<Message>, i: nat) returns (k: nat)
    requires i < |ms| && !Sound(checks, p, ms[i])
    ensures FirstUnsound(checks, p, ms, k)
  {
    k := 0;
    while k < i && Sound(checks, p, ms[k])
      invariant k <= i && forall j | 0 <= j < k :: Sound(checks, p, ms[j])
    {
      k := k + 1;
    }
  }

  /** The messages' error is that of the first unsound one. */
  lemma {:induction false} FirstFault(checks: Checks, p: Profile, ms: seq<Message>, k: nat)
    requires FirstUnsound(checks, p, ms, k)
    ensures CheckMessages(checks, p, ms) == CheckMessage(checks, p, ms[k])
    decreases k
  {
    if k == 0 {
    } else {
      assert Sound(checks, p, ms[0]);
      FirstFault(checks, p, ms[1..], k - 1);
    }
  }

  lemma {:induction false} NoFault(checks: Checks, p: Profile, ms: seq<Message>)
    requires forall i | 0 <= i < |ms| :: Sound(checks, p, ms[i])
    ensures CheckMessages(checks, p, ms) == None
  {
    if ms == [] {
    } else {
      assert Sound(checks, p, ms[0]);
      NoFault(checks, p, ms[1..]);
    }
  }

  /** The errors of the checks that need no database. */
  lemma SignedAnswers(checks: Checks, req: Request)
    ensures var err := CheckSigned(checks, req);
            var owned := Addressed(checks, req) && req.remote == req.profile.ownerPeerId;
            && (err == None <==> Founded(checks, req) && AllSound(checks, req))
            && (err == Some(InvalidPayload)
                <==> !Addressed(checks, req) || (Founded(checks, req) && Malformed(checks, req)))
            && (err == Some(Unauthorized)
                <==> (Addressed(checks, req) && !owned) || (Founded(checks, req) && Ghosted(checks, req)))
            && (err == Some(InvalidSignature)
                <==> (owned && !(checks.profile(req.profile) && checks.head(req.head)))
                     || (Founded(checks, req) && Unsigned(checks, req)))
            && (err.Some? ==> err.value in {InvalidPayload, Unauthorized, InvalidSignature})
  {
    if AllSound(checks, req) {
      NoFault(checks, req.profile, req.messages);
    } else {
      UnsoundOrNot(checks, req);
      var i: nat :| i < |req.messages| && !Sound(checks, req.profile, req.messages[i]);
      var k := FindUnsound(checks, req.profile, req.messages, i);
      FirstFault(checks, req.profile, req.messages, k);
      forall j: nat | FirstUnsound(checks, req.profile, req.messages, j) ensures j == k {
      }
    }
  }

  /** The head is not behind the row that was read, and names its owner. */
  ghost predicate NotStale(seen: Option<ChannelRow>, req: Request)
  {
    seen.Some? ==> seen.value.lastSeq <= req.head.lastSeq
  }

  ghost predicate SameOwner(seen: Option<ChannelRow>, req: Request)
  {
    seen.Some? ==> seen.value.ownerPeerId == req.head.ownerPeerId
  }

  /** No message is numbered or identified beyond the head. */
  ghost predicate WithinHead(req: Request)
  {
    forall i | 0 <= i < |req.messages| ::
      req.messages[i].seqNo <= req.head.lastSeq && req.messages[i].messageId <= req.head.lastMessageId
  }

  lemma RowAnswers(seen: Option<ChannelRow>, req: Request)
    ensures var err := CheckOld(seen, req);
            && (err == None <==> NotStale(seen, req) && SameOwner(seen, req) && WithinHead(req))
            && (err == Some(Stale) <==> !NotStale(seen, req))
            && (err == Some(Unauthorized) <==> NotStale(seen, req) && !SameOwner(seen, req))
            && (err == Some(InvalidPayload) <==> NotStale(seen, req) && SameOwner(seen, req) && !WithinHead(req))
            && (err.Some? ==> err.value in {Stale, Unauthorized, InvalidPayload})
  {
    if WithinHead(req) {
      assert forall i | 0 <= i < |req.messages| :: !ExceedsHead(req.head, req.messages[i]);
    } else {
      var i :| 0 <= i < |req.messages|
               && !(req.messages[i].seqNo <= req.head.lastSeq && req.messages[i].messageId <= req.head.lastMessageId);
      assert ExceedsHead(req.head, req.messages[i]);
    }
  }

  /***** In the transaction *****/

  /** The pair of version and number does not go down. */
  ghost predicate Progresses(table: map<Num, Message>, m: Message)
  {
    m.messageId in table ==>
      || table[m.messageId].version < m.version
      || (table[m.messageId].version == m.version && table[m.messageId].seqNo <= m.seqNo)
  }

  /** No other message has the number. */
  ghost predicate NumberFree(table: map<Num, Message>, m: Message)
  {
    forall id | id in table && id != m.messageId :: table[id].seqNo != m.seqNo
  }

  /** Message `i` of the list can be stored over the ones before it. */
  ghost predicate StorableAt(table: map<Num, Message>, ms: seq<Message>, i: nat)
    requires i < |ms|
  {
    Progresses(Overlay(table, ms[..i]), ms[i]) && NumberFree(Overlay(table, ms[..i]), ms[i])
  }

  ghost predicate AllStorable(table: map<Num, Message>, ms: seq<Message>)
  {
    forall i: nat | i < |ms| :: StorableAt(table, ms, i)
  }

  ghost predicate FirstUnstorable(table: map<Num, Message>, ms: seq<Message>, i: nat)
  {
    i < |ms| && !StorableAt(table, ms, i) && forall j: nat | j < i :: StorableAt(table, ms, j)
  }

  /** The first message that cannot be stored would go back. */
  ghost predicate Regressing(table: map<Num, Message>, ms: seq<Message>)
  {
    exists i: nat :: FirstUnstorable(table, ms, i) && !Progresses(Overlay(table, ms[..i]), ms[i])
  }

  /** The first message that cannot be stored has a number that is taken. */
  ghost predicate Colliding(table: map<Num, Message>, ms: seq<Message>)
  {
    exists i: nat :: FirstUnstorable(table, ms, i) && Progresses(Overlay(table, ms[..i]), ms[i])
  }

  lemma StorableFront(table: map<Num, Message>, ms: seq<Message>, i: nat)
    requires i < |ms| - 1
    ensures StorableAt(table, ms[..|ms| - 1], i) <==> StorableAt(table, ms, i)
  {
    assert ms[..|ms| - 1][..i] == ms[..i];
  }

  /** What the front of a list cannot store decides. */
  lemma FrontDecides(table: map<Num, Message>, ms: seq<Message>)
    requires ms != [] && !AllStorable(table, ms[..|ms| - 1])
    ensures !AllStorable(table, ms)
    ensures Regressing(table, ms) <==> Regressing(table, ms[..|ms| - 1])
    ensures Colliding(table, ms) <==> Colliding(table, ms[..|ms| - 1])
  {
    hide Overlay, Progresses, NumberFree;
    var front := ms[..|ms| - 1];
    forall i: nat | i < |front| ensures StorableAt(table, front, i) <==> StorableAt(table, ms, i) {
      StorableFront(table, ms, i);
    }
    hide StorableAt;
    var i: nat :| i < |front| && !StorableAt(table, front, i);
    assert !StorableAt(table, ms, i);
    forall k: nat
      ensures FirstUnstorable(table, ms, k) <==> FirstUnstorable(table, front, k)
      ensures FirstUnstorable(table, ms, k) ==> front[..k] == ms[..k] && ms[k] == front[k]
    {
    }
  }

  /** Otherwise the last message does. */
  lemma LastDecides(table: map<Num, Message>, ms: seq<Message>)
    requires ms != [] && AllStorable(table, ms[..|ms| - 1])
    ensures var t, m := Overlay(table, ms[..|ms| - 1]), ms[|ms| - 1];
            && (AllStorable(table, ms) <==> Progresses(t, m) && NumberFree(t, m))
            && (Regressing(table, ms) <==> !Progresses(t, m))
            && (Colliding(table, ms) <==> Progresses(t, m) && !NumberFree(t, m))
  {
    hide Overlay, Progresses, NumberFree;
    var front, last := ms[..|ms| - 1], |ms| - 1;
    forall i: nat | i < last ensures StorableAt(table, ms, i) {
      StorableFront(table, ms, i);
      assert StorableAt(table, front, i);
    }
    assert FirstUnstorable(table, ms, last) <==> !StorableAt(table, ms, last);
    assert forall k: nat :: FirstUnstorable(table, ms, k) ==> k == last;
    if FirstUnstorable(table, ms, last) {
      assert Regressing(table, ms) || Colliding(table, ms);
    }
  }

  lemma ApplyMessageAnswers(ch: Channel, m: Message)
    ensures ApplyMessage(ch, m).Ok? <==> Progresses(ch.messages, m) && NumberFree(ch.messages, m)
    ensures ApplyMessage(ch, m) == Err(Stale) <==> !Progresses(ch.messages, m)
    ensures ApplyMessage(ch, m) == Err(Internal) <==> Progresses(ch.messages, m) && !NumberFree(ch.messages, m)
  {
  }

  lemma {:induction false} MessagesAnswer(ch: Channel, ms: seq<Message>)
    ensures ApplyMessages(ch, ms).Ok? <==> AllStorable(ch.messages, ms)
    ensures ApplyMessages(ch, ms) == Err(Stale) <==> Regressing(ch.messages, ms)
    ensures ApplyMessages(ch, ms) == Err(Internal) <==> Colliding(ch.messages, ms)
    ensures ApplyMessages(ch, ms).Err? ==> ApplyMessages(ch, ms).error in {Stale, Internal}
  {
    if ms == [] {
    } else {
      var front := ms[..|ms| - 1];
      MessagesAnswer(ch, front);
      if !AllStorable(ch.messages, front) {
        FrontDecides(ch.messages, ms);
      } else {
        LastDecides(ch.messages, ms);
        ApplyMessagesOverlays(ch, front);
        ApplyMessageAnswers(ApplyMessages(ch, front).value, ms[|ms| - 1]);
      }
      hide Overlay, ApplyMessage, Progresses, NumberFree;
    }
  }

  /** No explicit change names another channel. */
  ghost predicate OwnChanges(req: Request)
  {
    forall i | 0 <= i < |req.changes| ::
      req.changes[i].channelId == [] || req.changes[i].channelId == req.profile.channelId
  }

  lemma {:induction false} ChangesAnswer(ch: Channel, cs: seq<Change>, channelId: Bytes)
    ensures ApplyChanges(ch, cs, channelId).Ok?
       <==> forall i | 0 <= i < |cs| :: cs[i].channelId == [] || cs[i].channelId == channelId
    ensures ApplyChanges(ch, cs, channelId).Err? ==> ApplyChanges(ch, cs, channelId).error == InvalidPayload
  {
    if cs == [] {
    } else {
      ChangesAnswer(ch, cs[..|cs| - 1], channelId);
    }
  }

  lemma TransactAnswers(ch: Channel, seen: Option<ChannelRow>, req: Request)
    ensures var r := Transact(ch, seen, req);
            && (r.Ok? <==> AllStorable(ch.messages, req.messages) && OwnChanges(req))
            && (r == Err(Stale) <==> Regressing(ch.messages, req.messages))
            && (r == Err(Internal) <==> Colliding(ch.messages, req.messages))
            && (r == Err(InvalidPayload) <==> AllStorable(ch.messages, req.messages) && !OwnChanges(req))
            && (r.Err? ==> r.error in {Stale, Internal, InvalidPayload})
  {
    hide ApplyMessages, ApplyChanges, ApplyProfile, AllStorable, Regressing, Colliding;
    var start := ch.(row := Some(UpsertRow(ch.row, req.profile, req.head)));
    MessagesAnswer(start, req.messages);
    if ApplyMessages(start, req.messages).Ok? {
      var ch' := ApplyProfile(ApplyMessages(start, req.messages).value, seen, req);
      ChangesAnswer(ch', req.changes, req.profile.channelId);
    }
  }

  /***** The whole push *****/

  ghost predicate PassesRow(seen: Option<ChannelRow>, req: Request)
  {
    NotStale(seen, req) && SameOwner(seen, req) && WithinHead(req)
  }

  /**
   A push is accepted exactly when its channel id is valid and the head's, the remote is the owner
   that the profile names, profile, head and messages are signed, every message is of this channel,
   by its owner and of owner version one, the head is not stale, of the same owner and not exceeded,
   no message goes back or takes a number, and no change is of another channel.
   */
  lemma PushAcceptedIff(ch: Channel, seen: Option<ChannelRow>, req: Request, checks: Checks)
    ensures Push(ch, seen, req, checks).1.None?
       <==> && Founded(checks, req) && AllSound(checks, req) && PassesRow(seen, req)
            && AllStorable(ch.messages, req.messages) && OwnChanges(req)
  {
    hide CheckSigned, CheckOld, Transact, Founded, AllSound, AllStorable, OwnChanges;
    SignedAnswers(checks, req);
    RowAnswers(seen, req);
    TransactAnswers(ch, seen, req);
  }

  /** Which error a refused push is answered with. */
  lemma PushErrors(ch: Channel, seen: Option<ChannelRow>, req: Request, checks: Checks)
    ensures var err := Push(ch, seen, req, checks).1;
            var owned := Addressed(checks, req) && req.remote == req.profile.ownerPeerId;
            var founded := Founded(checks, req);
            var signed := founded && AllSound(checks, req);
            var current := signed && PassesRow(seen, req);
            && (err == Some(InvalidPayload)
                <==> || !Addressed(checks, req) || (founded && Malformed(checks, req))
                     || (signed && NotStale(seen, req) && SameOwner(seen, req) && !WithinHead(req))
                     || (current && AllStorable(ch.messages, req.messages) && !OwnChanges(req)))
            && (err == Some(Unauthorized)
                <==> || (Addressed(checks, req) && !owned) || (founded && Ghosted(checks, req))
                     || (signed && NotStale(seen, req) && !SameOwner(seen, req)))
            && (err == Some(InvalidSignature)
                <==> || (owned && !(checks.profile(req.profile) && checks.head(req.head)))
                     || (founded && Unsigned(checks, req)))
            && (err == Some(Stale)
                <==> || (signed && !NotStale(seen, req)) || (current && Regressing(ch.messages, req.messages)))
            && (err == Some(Internal) <==> current && Colliding(ch.messages, req.messages))
  {
    hide CheckSigned, CheckOld, Transact, AllSound, Malformed, Ghosted, Unsigned;
    hide AllStorable, OwnChanges, Regressing, Colliding, NotStale, SameOwner, WithinHead;
    SignedAnswers(checks, req);
    RowAnswers(seen, req);
    TransactAnswers(ch, seen, req);
  }

  /***** The rows that are written *****/

  lemma ChangeTypes()
    ensures MESSAGE == Ascii("message") && PROFILE == Ascii("profile")
  {
  }

  /** Message `i` is the last of the list with its number. */
  ghost predicate LastWithNumber(ms: seq<Message>, i: nat)
    requires i < |ms|
  {
    forall j | i < j < |ms| :: ms[j].seqNo != ms[i].seqNo
  }

  /** The change row of a message, column by column; the profile version is that of the row before, if any. */
  ghost predicate RowOfMessage(row: ChangeRow, m: Message, before: map<Num, ChangeRow>)
  {
    && row.changeType == MESSAGE && row.messageId == Some(m.messageId) && row.version == Some(m.version)
    && row.isDeleted == Some(m.isDeleted) && row.createdAt == m.updatedAt
    && row.profileVersion == (if m.seqNo in before then before[m.seqNo].profileVersion else None)
  }

  lemma {:induction false} OtherRows(ch: Channel, ms: seq<Message>, s: Num)
    requires ApplyMessages(ch, ms).Ok? && forall i | 0 <= i < |ms| :: ms[i].seqNo != s
    ensures var changes' := ApplyMessages(ch, ms).value.changes;
            (s in changes' <==> s in ch.changes) && (s in changes' ==> changes'[s] == ch.changes[s])
  {
    if ms == [] {
    } else {
      assert ms[|ms| - 1].seqNo != s;
      OtherRows(ch, ms[..|ms| - 1], s);
    }
  }

  lemma {:induction false} ProfileColumn(ch: Channel, ms: seq<Message>, s: Num)
    requires ApplyMessages(ch, ms).Ok?
    ensures var changes' := ApplyMessages(ch, ms).value.changes;
            && (s in ch.changes ==> s in changes' && changes'[s].profileVersion == ch.changes[s].profileVersion)
            && (s !in ch.changes && s in changes' ==> changes'[s].profileVersion == None)
  {
    if ms == [] {
    } else {
      ProfileColumn(ch, ms[..|ms| - 1], s);
    }
  }

  lemma {:induction false} MessageRows(ch: Channel, ms: seq<Message>, i: nat)
    requires ApplyMessages(ch, ms).Ok? && i < |ms| && LastWithNumber(ms, i)
    ensures var changes' := ApplyMessages(ch, ms).value.changes;
            ms[i].seqNo in changes' && RowOfMessage(changes'[ms[i].seqNo], ms[i], ch.changes)
    decreases |ms|
  {
    var front, last := ms[..|ms| - 1], |ms| - 1;
    if i == last {
      ProfileColumn(ch, front, ms[i].seqNo);
    } else {
      assert ms[last].seqNo != ms[i].seqNo;
      assert forall j | i < j < last :: front[j] == ms[j];
      MessageRows(ch, front, i);
    }
  }

  /**
   The change rows of an accepted push without explicit changes. With messages, every number has the
   row of the last message that has it, or its old row. Without messages, a larger profile version
   than that of the row that was read puts a profile row at the head's last number, which keeps the
   message columns of a row that is there; nothing else is written.
   */
  lemma PushedRows(ch: Channel, seen: Option<ChannelRow>, req: Request, checks: Checks, s: Num)
    requires req.changes == [] && Push(ch, seen, req, checks).1.None?
    ensures var changes' := Push(ch, seen, req, checks).0.changes;
            var newer := req.profile.profileVersion > if seen.Some? then seen.value.profileVersion else 0;
            var kept := (s in changes' <==> s in ch.changes) && (s in changes' ==> changes'[s] == ch.changes[s]);
            && (forall i: nat | i < |req.messages| && LastWithNumber(req.messages, i) && req.messages[i].seqNo == s ::
                  s in changes' && RowOfMessage(changes'[s], req.messages[i], ch.changes))
            && (req.messages != [] && (forall i | 0 <= i < |req.messages| :: req.messages[i].seqNo != s) ==> kept)
            && (req.messages == [] && !(newer && s == req.head.lastSeq) ==> kept)
            && (req.messages == [] && newer && s == req.head.lastSeq ==>
                  && s in changes'
                  && changes'[s] == ChangeRow(PROFILE,
                                              if s in ch.changes then ch.changes[s].messageId else None,
                                              if s in ch.changes then ch.changes[s].version else None,
                                              if s in ch.changes then ch.changes[s].isDeleted else None,
                                              Some(req.profile.profileVersion), req.head.updatedAt))
  {
    hide CheckSigned, CheckOld;
    var start := ch.(row := Some(UpsertRow(ch.row, req.profile, req.head)));
    forall i: nat | i < |req.messages| && LastWithNumber(req.messages, i) && req.messages[i].seqNo == s
      ensures var changes' := Push(ch, seen, req, checks).0.changes;
              s in changes' && RowOfMessage(changes'[s], req.messages[i], ch.changes)
    {
      MessageRows(start, req.messages, i);
    }
    if forall i | 0 <= i < |req.messages| :: req.messages[i].seqNo != s {
      OtherRows(start, req.messages, s);
    }
  }
}

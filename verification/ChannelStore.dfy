/** The channel store as it runs: checks, a row read, and a transaction over the tables. */
module ChannelStore {
  import opened ByteOrder
  import opened Options
  import opened Ascending
  import opened Channels
  import opened ChannelSync

  class Store {
    var channels: map<Bytes, Channel>
    const checks: Checks

    constructor (checks: Checks)
      ensures channels == map[] && this.checks == checks
    {
      this.channels := map[];
      this.checks := checks;
    }

    function At(id: Bytes): Channel
      reads this
    {
      if id in channels then channels[id] else NO_CHANNEL
    }

    /** The checks that need no database. */
    method Verify(req: Request) returns (err: Option<Error>)
      ensures err == CheckSigned(checks, req)
    {
      var p, h := req.profile, req.head;
      if !checks.channelId(p.channelId) || p.channelId != h.channelId {
        return Some(InvalidPayload);
      }
      if req.remote != p.ownerPeerId {
        return Some(Unauthorized);
      }
      if !checks.profile(p) || !checks.head(h) {
        return Some(InvalidSignature);
      }
      for i := 0 to |req.messages|
        invariant CheckMessages(checks, p, req.messages) == CheckMessages(checks, p, req.messages[i..])
      {
        assert req.messages[i..][1..] == req.messages[i + 1..];
        var bad := CheckMessage(checks, p, req.messages[i]);
        if bad.Some? {
          return bad;
        }
      }
      err := None;
    }

    /** The checks against the row that was read before the transaction. */
    method CheckRow(seen: Option<ChannelRow>, req: Request) returns (err: Option<Error>)
      ensures err == CheckOld(seen, req)
    {
      if seen.Some? {
        if req.head.lastSeq < seen.value.lastSeq {
          return Some(Stale);
        }
        if req.head.ownerPeerId != seen.value.ownerPeerId {
          return Some(Unauthorized);
        }
      }
      for i := 0 to |req.messages|
        invariant forall j | 0 <= j < i :: !ExceedsHead(req.head, req.messages[j])
      {
        if ExceedsHead(req.head, req.messages[i]) {
          return Some(InvalidPayload);
        }
      }
      err := None;
    }

    /** One message: refused if it regresses, else it replaces its row and writes its change. */
    static method InsertMessage(ch: Channel, m: Message) returns (r: Result<Channel>)
      ensures r == ApplyMessage(ch, m)
    {
      if m.messageId in ch.messages {
        var prev := ch.messages[m.messageId];
        if m.version < prev.version || (m.version == prev.version && m.seqNo < prev.seqNo) {
          return Err(Stale);
        }
      }
      var rest := ch.messages - {m.messageId};
      if exists other | other in rest :: rest[other].seqNo == m.seqNo {
        assert SeqTaken(ch.messages, m);
        return Err(Internal);
      }
      assert forall other | other in ch.messages && other != m.messageId :: other in rest;
      var messages := rest[m.messageId := m];
      assert messages == ch.messages[m.messageId := m];
      r := Ok(ch.(messages := messages, changes := ch.changes[m.seqNo := MessageChange(ch.changes, m)]));
    }

    static method InsertMessages(ch: Channel, ms: seq<Message>) returns (r: Result<Channel>)
      ensures r == ApplyMessages(ch, ms)
    {
      hide ApplyMessage;
      var tx := ch;
      var i := 0;
      while i < |ms|
        invariant i <= |ms| && ApplyMessages(ch, ms[..i]) == Ok(tx)
      {
        assert ms[..i + 1][..i] == ms[..i];
        r := InsertMessage(tx, ms[i]);
        if r.Err? {
          MessagesFail(ch, ms, i + 1);
          return;
        }
        tx := r.value;
        i := i + 1;
      }
      assert ms[..i] == ms;
      r := Ok(tx);
    }

    static method InsertChanges(ch: Channel, cs: seq<Change>, id: Bytes) returns (r: Result<Channel>)
      ensures r == ApplyChanges(ch, cs, id)
    {
      var tx := ch;
      var i := 0;
      while i < |cs|
        invariant i <= |cs| && ApplyChanges(ch, cs[..i], id) == Ok(tx)
      {
        var c := cs[i];
        assert cs[..i + 1][..i] == cs[..i];
        if c.channelId != [] && c.channelId != id {
          ChangesFail(ch, cs, id, i + 1);
          return Err(InvalidPayload);
        }
        tx := tx.(changes := tx.changes[c.seqNo := c.row]);
        i := i + 1;
      }
      assert cs[..i] == cs;
      r := Ok(tx);
    }

    /** The transaction of a push that read the row as `seen`; an error rolls everything back. */
    method Commit(seen: Option<ChannelRow>, req: Request) returns (err: Option<Error>)
      modifies this
      ensures var id := req.profile.channelId;
              match Transact(old(At(id)), seen, req)
              case Err(e) => err == Some(e) && channels == old(channels)
              case Ok(ch) => err == None && channels == old(channels)[id := ch]
    {
      hide ApplyMessages, ApplyChanges;
      var id := req.profile.channelId;
      var tx := At(id);
      tx := tx.(row := Some(UpsertRow(tx.row, req.profile, req.head)));
      var r := InsertMessages(tx, req.messages);
      if r.Err? {
        return Some(r.error);
      }
      tx := r.value;
      if WritesProfileRow(seen, req) {
        tx := tx.(changes := tx.changes[req.head.lastSeq := ProfileChange(tx.changes, req.profile, req.head)]);
      }
      r := InsertChanges(tx, req.changes, id);
      if r.Err? {
        return Some(r.error);
      }
      channels := channels[id := r.value];
      err := None;
    }

    /** A push that no other push overlaps. */
    method Push(req: Request) returns (err: Option<Error>)
      modifies this
      ensures var id := req.profile.channelId;
              var spec := Channels.Push(old(At(id)), old(At(id)).row, req, checks);
              err == spec.1 && channels == if err.Some? then old(channels) else old(channels)[id := spec.0]
    {
      err := Verify(req);
      if err.Some? {
        return;
      }
      var seen := At(req.profile.channelId).row;
      err := CheckRow(seen, req);
      if err.Some? {
        return;
      }
      err := Commit(seen, req);
    }

    /** The changes above `after`, one page; see `ChannelSync.SyncPage`. */
    method SyncChanges(id: Bytes, after: Num, limit: int) returns (page: Option<SyncResult>)
      ensures page == SyncPage(At(id), after, limit)
    {
      hide Asc, SortNums, Lists;
      var size := if limit <= 0 || limit > 500 then 50 else limit;
      var ch := At(id);
      if ch.row.None? {
        return None;
      }
      var rows := SortNums(Newer(ch.changes, after));
      SortedRows(ch, after, rows);
      ghost var all := rows;
      if |rows| > size + 1 {
        rows := rows[..size + 1];
      }
      var items := ScanRows(ch.changes, rows);
      var hasMore := |items| > size;
      if hasMore {
        items := items[..size];
      }
      var nextAfter := after;
      if |items| > 0 {
        nextAfter := items[|items| - 1].seqNo;
      }
      assert items == Items(ch.changes, Front(all, size));
      page := Some(SyncResult(ch.row.value.lastSeq, hasMore, nextAfter, items));
    }

    static method ScanRows(changes: map<Num, ChangeRow>, rows: seq<Num>) returns (items: seq<Item>)
      requires forall i | 0 <= i < |rows| :: rows[i] in changes
      ensures items == Items(changes, rows)
    {
      items := [];
      for i := 0 to |rows|
        invariant items == Items(changes, rows[..i])
      {
        items := items + [Item(rows[i], changes[rows[i]])];
      }
      assert rows[..|rows|] == rows;
    }
  }

  lemma SortedRows(ch: Channel, after: Num, rows: seq<Num>)
    requires Lists(rows, Newer(ch.changes, after))
    ensures rows == Asc(Newer(ch.changes, after))
    ensures forall i | 0 <= i < |rows| :: rows[i] in ch.changes
  {
    AscUnique(rows, Newer(ch.changes, after));
  }

  lemma {:induction false} MessagesFail(ch: Channel, ms: seq<Message>, i: nat)
    requires i <= |ms| && ApplyMessages(ch, ms[..i]).Err?
    ensures ApplyMessages(ch, ms) == ApplyMessages(ch, ms[..i])
    decreases |ms|
  {
    if i == |ms| {
      assert ms[..i] == ms;
    } else {
      assert ms[..|ms| - 1][..i] == ms[..i];
      MessagesFail(ch, ms[..|ms| - 1], i);
    }
  }

  lemma {:induction false} ChangesFail(ch: Channel, cs: seq<Change>, channelId: Bytes, i: nat)
    requires i <= |cs| && ApplyChanges(ch, cs[..i], channelId).Err?
    ensures ApplyChanges(ch, cs, channelId) == ApplyChanges(ch, cs[..i], channelId)
    decreases |cs|
  {
    if i == |cs| {
      assert cs[..i] == cs;
    } else {
      assert cs[..|cs| - 1][..i] == cs[..i];
      ChangesFail(ch, cs[..|cs| - 1], channelId, i);
    }
  }
}

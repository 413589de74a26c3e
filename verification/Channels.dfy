/** Public channels: the rows of one channel and what a push does to them. */
module Channels {
  import opened ByteOrder
  import opened Options
  import opened Ascending

  datatype Profile = Profile(channelId: Bytes, ownerPeerId: Bytes, ownerVersion: int, details: Bytes,
                             profileVersion: int, createdAt: int, updatedAt: int, signature: Bytes)

  datatype Head = Head(channelId: Bytes, ownerPeerId: Bytes, ownerVersion: int, lastMessageId: Num,
                       profileVersion: int, lastSeq: Num, updatedAt: int, signature: Bytes)

  datatype Message = Message(channelId: Bytes, messageId: Num, version: int, seqNo: Num, ownerVersion: int,
                             authorPeerId: Bytes, updatedAt: int, isDeleted: bool, content: Bytes, signature: Bytes)

  /** A row of the change table; columns that are NULL are `None`. */
  datatype ChangeRow = ChangeRow(changeType: Bytes, messageId: Option<Num>, version: Option<int>,
                                 isDeleted: Option<bool>, profileVersion: Option<int>, createdAt: int)

  datatype Change = Change(channelId: Bytes, seqNo: Num, row: ChangeRow)

  datatype ChannelRow = ChannelRow(ownerPeerId: Bytes, ownerVersion: int, details: Bytes, profileVersion: int,
                                   lastMessageId: Num, lastSeq: Num, createdAt: int, updatedAt: int,
                                   headUpdatedAt: int, profileSignature: Bytes, headSignature: Bytes)

  /** One channel: its row, its messages by id and its changes by sequence number. */
  datatype Channel = Channel(row: Option<ChannelRow>, messages: map<Num, Message>, changes: map<Num, ChangeRow>)

  const NO_CHANNEL := Channel(None, map[], map[])

  const MESSAGE: Bytes := [109, 101, 115, 115, 97, 103, 101]
  const PROFILE: Bytes := [112, 114, 111, 102, 105, 108, 101]

  datatype Error = InvalidPayload | Unauthorized | InvalidSignature | Stale | Internal

  datatype Result<T> = Ok(value: T) | Err(error: Error)

  /** The foreign checks: the id format and the three signatures. */
  datatype Checks = Checks(channelId: Bytes -> bool, profile: Profile -> bool, head: Head -> bool,
                           message: (Bytes, Message) -> bool)

  datatype Request = Request(remote: Bytes, profile: Profile, head: Head, messages: seq<Message>, changes: seq<Change>)

  /***** Checks before the transaction *****/

  function CheckMessage(checks: Checks, p: Profile, m: Message): Option<Error>
  {
    if m.channelId != p.channelId then Some(InvalidPayload)
    else if m.authorPeerId != p.ownerPeerId then Some(Unauthorized)
    else if m.ownerVersion != 1 then Some(InvalidPayload)
    else if !checks.message(p.ownerPeerId, m) then Some(InvalidSignature)
    else None
  }

  /** The error of the first message that fails its check. */
  function CheckMessages(checks: Checks, p: Profile, ms: seq<Message>): Option<Error>
  {
    if ms == [] then None
    else if CheckMessage(checks, p, ms[0]).Some? then CheckMessage(checks, p, ms[0])
    else CheckMessages(checks, p, ms[1..])
  }

  function CheckSigned(checks: Checks, req: Request): Option<Error>
  {
    var p, h := req.profile, req.head;
    if !checks.channelId(p.channelId) then Some(InvalidPayload)
    else if p.channelId != h.channelId then Some(InvalidPayload)
    else if req.remote != p.ownerPeerId then Some(Unauthorized)
    else if !checks.profile(p) then Some(InvalidSignature)
    else if !checks.head(h) then Some(InvalidSignature)
    else CheckMessages(checks, p, req.messages)
  }

  predicate ExceedsHead(h: Head, m: Message)
  {
    m.seqNo > h.lastSeq || m.messageId > h.lastMessageId
  }

  /** The checks against `old`, the channel row as it was read before the transaction began. */
  function CheckOld(old': Option<ChannelRow>, req: Request): Option<Error>
  {
    var h := req.head;
    if old'.Some? && h.lastSeq < old'.value.lastSeq then Some(Stale)
    else if old'.Some? && h.ownerPeerId != old'.value.ownerPeerId then Some(Unauthorized)
    else if exists i | 0 <= i < |req.messages| :: ExceedsHead(h, req.messages[i]) then Some(InvalidPayload)
    else None
  }

  /***** The transaction *****/

  /** The upsert keeps the creation time of a row that is already there. */
  function UpsertRow(row: Option<ChannelRow>, p: Profile, h: Head): ChannelRow
  {
    ChannelRow(p.ownerPeerId, p.ownerVersion, p.details, p.profileVersion, h.lastMessageId, h.lastSeq,
               if row.Some? then row.value.createdAt else p.createdAt, p.updatedAt, h.updatedAt,
               p.signature, h.signature)
  }

  /** Some other message of the channel has this sequence number. */
  predicate SeqTaken(messages: map<Num, Message>, m: Message)
  {
    exists id | id in messages :: id != m.messageId && messages[id].seqNo == m.seqNo
  }

  predicate Regresses(messages: map<Num, Message>, m: Message)
  {
    && m.messageId in messages
    && var prev := messages[m.messageId];
       m.version < prev.version || (m.version == prev.version && m.seqNo < prev.seqNo)
  }

  /** The change row of a message; on a conflict the profile version of the old row stays. */
  function MessageChange(changes: map<Num, ChangeRow>, m: Message): ChangeRow
  {
    ChangeRow(MESSAGE, Some(m.messageId), Some(m.version), Some(m.isDeleted),
              if m.seqNo in changes then changes[m.seqNo].profileVersion else None, m.updatedAt)
  }

  function ApplyMessage(ch: Channel, m: Message): Result<Channel>
  {
    if Regresses(ch.messages, m) then Err(Stale)
    else if SeqTaken(ch.messages, m) then Err(Internal)
    else Ok(ch.(messages := ch.messages[m.messageId := m],
                changes := ch.changes[m.seqNo := MessageChange(ch.changes, m)]))
  }

  function ApplyMessages(ch: Channel, ms: seq<Message>): Result<Channel>
  {
    if ms == [] then Ok(ch) else
      match ApplyMessages(ch, ms[..|ms| - 1])
      case Err(e) => Err(e)
      case Ok(ch') => ApplyMessage(ch', ms[|ms| - 1])
  }

  /** The profile row; on a conflict the message columns of the old row stay. */
  function ProfileChange(changes: map<Num, ChangeRow>, p: Profile, h: Head): ChangeRow
  {
    if h.lastSeq in changes then
      changes[h.lastSeq].(changeType := PROFILE, profileVersion := Some(p.profileVersion), createdAt := h.updatedAt)
    else
      ChangeRow(PROFILE, None, None, None, Some(p.profileVersion), h.updatedAt)
  }

  predicate WritesProfileRow(old': Option<ChannelRow>, req: Request)
  {
    req.profile.profileVersion > (if old'.Some? then old'.value.profileVersion else 0)
    && req.messages == [] && req.changes == []
  }

  function ApplyProfile(ch: Channel, old': Option<ChannelRow>, req: Request): Channel
  {
    if WritesProfileRow(old', req) then
      ch.(changes := ch.changes[req.head.lastSeq := ProfileChange(ch.changes, req.profile, req.head)])
    else ch
  }

  function ApplyChanges(ch: Channel, cs: seq<Change>, channelId: Bytes): Result<Channel>
  {
    if cs == [] then Ok(ch) else
      match ApplyChanges(ch, cs[..|cs| - 1], channelId)
      case Err(e) => Err(e)
      case Ok(ch') =>
        var c := cs[|cs| - 1];
        if c.channelId != [] && c.channelId != channelId then Err(InvalidPayload)
        else Ok(ch'.(changes := ch'.changes[c.seqNo := c.row]))
  }

  function Transact(ch: Channel, old': Option<ChannelRow>, req: Request): Result<Channel>
  {
    var start := ch.(row := Some(UpsertRow(ch.row, req.profile, req.head)));
    match ApplyMessages(start, req.messages)
    case Err(e) => Err(e)
    case Ok(ch') => ApplyChanges(ApplyProfile(ch', old', req), req.changes, req.profile.channelId)
  }

  /**
   A push whose transaction runs on `ch` after the row was read as `old'`. When pushes overlap,
   `old'` may be an earlier row than the one in `ch`.
   */
  function Push(ch: Channel, old': Option<ChannelRow>, req: Request, checks: Checks): (Channel, Option<Error>)
  {
    if CheckSigned(checks, req).Some? then (ch, CheckSigned(checks, req))
    else if CheckOld(old', req).Some? then (ch, CheckOld(old', req))
    else
      match Transact(ch, old', req)
      case Err(e) => (ch, Some(e))
      case Ok(ch') => (ch', None)
  }

  /***** Reads *****/

  function GetHead(ch: Channel, channelId: Bytes): Option<Head>
  {
    match ch.row
    case None => None
    case Some(r) => Some(Head(channelId, r.ownerPeerId, r.ownerVersion, r.lastMessageId, r.profileVersion,
                              r.lastSeq, r.headUpdatedAt, r.headSignature))
  }

  function GetProfile(ch: Channel, channelId: Bytes): Option<Profile>
  {
    match ch.row
    case None => None
    case Some(r) => Some(Profile(channelId, r.ownerPeerId, r.ownerVersion, r.details, r.profileVersion,
                                 r.createdAt, r.updatedAt, r.profileSignature))
  }
}

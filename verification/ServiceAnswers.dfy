/** What a store request is answered with, in terms of the request, the clocks and the stored messages. */
module ServiceAnswers {
  import opened ByteOrder
  import opened Options
  import opened Ascending
  import opened Decimal
  import opened Mailboxes
  import opened MailboxLaws
  import opened FlatStore
  import opened RateLimit
  import opened Ledger
  import opened StoreService

  /***** The stages of a request *****/

  predicate Complete(req: Request)
  {
    && req.version == 1 && req.message.Some? && req.messageVersion == 1 && req.complete
    && req.message.value.msgId != [] && req.message.value.senderId != [] && req.message.value.recipientId != []
  }

  predicate Valid(cfg: Config, req: Request)
  {
    Complete(req) && 0 < TtlOf(cfg, req.message.value) <= cfg.maxTtl
  }

  /** The message as it is checked and stored: with the default time to live if it came without one. */
  function Completed(cfg: Config, req: Request): Envelope
    requires req.message.Some?
  {
    req.message.value.(ttlSec := Some(TtlOf(cfg, req.message.value)))
  }

  predicate RemoteAllows(s: State, limits: Limits, remote: Bytes, clocks: Clocks)
  {
    Step(limits.remote, s.gates.remote, remote, clocks.remote).1
  }

  predicate SenderAllows(s: State, limits: Limits, env: Envelope, clocks: Clocks)
  {
    Step(limits.sender, s.gates.sender, env.senderId, clocks.sender).1
  }

  /** The request is valid, within both limits and signed. */
  predicate GetsThrough(s: State, limits: Limits, cfg: Config, foreign: Env, remote: Bytes, req: Request,
                        clocks: Clocks)
  {
    && Valid(cfg, req) && RemoteAllows(s, limits, remote, clocks)
    && foreign.verify(Completed(cfg, req)).None? && SenderAllows(s, limits, Completed(cfg, req), clocks)
  }

  predicate SmallEnough(cfg: Config, foreign: Env, env: Envelope)
  {
    foreign.envelopeSize(env).Some? && foreign.envelopeSize(env).value <= cfg.maxMessageSize
  }

  predicate TooMany(b: Mailbox, cfg: Config)
  {
    0 < cfg.quota.maxMessages <= |b.msgs|
  }

  function NextNumber(b: Mailbox): Num
  {
    if b.last == MAX_UINT64 then 0 else b.last + 1
  }

  ghost predicate TooLarge(b: Mailbox, cfg: Config, foreign: Env, env: Envelope, now: int)
  {
    var m := StoredMessage(NextNumber(b), Entry(now, ExpiryOf(env, now), env));
    0 < cfg.quota.maxBytes < TotalBytes(b.msgs, foreign.size) + foreign.size(m)
  }

  lemma FilledIsCompleted(cfg: Config, req: Request)
    requires req.message.Some?
    ensures Filled(req.message.value, cfg.defaultTtl) == Completed(cfg, req)
    ensures Completed(cfg, req).EffectiveTtl(cfg.defaultTtl) == TtlOf(cfg, req.message.value)
  {
  }

  lemma ValidationAnswers(cfg: Config, req: Request)
    ensures CheckRequest(cfg, req) == None <==> Valid(cfg, req)
    ensures CheckRequest(cfg, req) == Some(TtlTooLarge)
       <==> Complete(req) && 0 < TtlOf(cfg, req.message.value) && cfg.maxTtl < TtlOf(cfg, req.message.value)
    ensures CheckRequest(cfg, req) == Some(Code.InvalidPayload)
       <==> !Complete(req) || TtlOf(cfg, req.message.value) <= 0
  {
  }

  /***** Refusals *****/

  /**
   Which code a request is refused with before it reaches the store; a verifier's own code is passed on.
   */
  lemma GateAnswers(s: State, limits: Limits, cfg: Config, foreign: Env, remote: Bytes, req: Request, clocks: Clocks)
    ensures var resp := HandleSpec(s, limits, cfg, foreign, remote, req, clocks).1;
            var allowed := Valid(cfg, req) && RemoteAllows(s, limits, remote, clocks);
            && (!Complete(req) || TtlOf(cfg, req.message.value) <= 0 ==> resp == Refused(Code.InvalidPayload))
            && (Complete(req) && TtlOf(cfg, req.message.value) > 0 && TtlOf(cfg, req.message.value) > cfg.maxTtl ==>
                  resp == Refused(TtlTooLarge))
            && (Valid(cfg, req) && !RemoteAllows(s, limits, remote, clocks) ==> resp == Refused(RateLimited))
            && (allowed && foreign.verify(Completed(cfg, req)).Some? ==>
                  resp == Refused(foreign.verify(Completed(cfg, req)).value))
            && (allowed && foreign.verify(Completed(cfg, req)).None?
                && !SenderAllows(s, limits, Completed(cfg, req), clocks) ==>
                  resp == Refused(RateLimited))
  {
    hide Step, Persist;
    if req.message.Some? { FilledIsCompleted(cfg, req); }
  }

  /** What happens to a request that gets through: it is persisted as it was completed. */
  lemma ThroughIsPersisted(s: State, limits: Limits, cfg: Config, foreign: Env, remote: Bytes, req: Request,
                           clocks: Clocks)
    requires GetsThrough(s, limits, cfg, foreign, remote, req, clocks)
    ensures var (s', resp) := HandleSpec(s, limits, cfg, foreign, remote, req, clocks);
            (s'.world, resp) == Persist(s.world, cfg, foreign, Completed(cfg, req), clocks.store)
  {
    hide Step, Persist;
    FilledIsCompleted(cfg, req);
  }

  /** The reply of the store in these terms. */
  lemma StoreReplyOf(b: Mailbox, cfg: Config, foreign: Env, env: Envelope, now: int)
    requires Consistent(b) && TimesFit(env, now)
    ensures var reply := Mailboxes.Store(b, env, now, Some(cfg.quota), foreign.size).1;
            && (reply.Duplicate? <==> IsLive(b, env.msgId))
            && (reply == QuotaExceeded <==> !IsLive(b, env.msgId) && TooMany(b, cfg))
            && (reply == BytesExceeded
                <==> !IsLive(b, env.msgId) && !TooMany(b, cfg) && TooLarge(b, cfg, foreign, env, now))
            && (reply.Stored?
                <==> !IsLive(b, env.msgId) && !TooMany(b, cfg) && !TooLarge(b, cfg, foreign, env, now))
  {
    hide Consistent, Mailboxes.Store, TotalBytes, ExpiryOf;
    StoreReplies(b, env, now, Some(cfg.quota), foreign.size);
  }

  lemma PersistAnswers(w: World, cfg: Config, foreign: Env, env: Envelope, now: int)
    requires Consistent(Box(w, env.recipientId)) && TimesFit(env, now)
    ensures var resp := Persist(w, cfg, foreign, env, now).1;
            var b := Box(w, env.recipientId);
            var small := SmallEnough(cfg, foreign, env);
            && (foreign.envelopeSize(env).None? ==> resp == Refused(InternalError))
            && (foreign.envelopeSize(env).Some? && !small ==> resp == Refused(MessageTooLarge))
            && (small && !IsLive(b, env.msgId) && TooMany(b, cfg) ==> resp == Refused(RecipientQuotaExceeded))
            && (small && !IsLive(b, env.msgId) && !TooMany(b, cfg) && TooLarge(b, cfg, foreign, env, now) ==>
                  resp == Refused(RecipientBytesExceeded))
            && (resp.Accepted?
                <==> small && (IsLive(b, env.msgId) || (!TooMany(b, cfg) && !TooLarge(b, cfg, foreign, env, now))))
  {
    hide Consistent, Mailboxes.Store, IsLive, TooMany, TooLarge;
    StoreReplyOf(Box(w, env.recipientId), cfg, foreign, env, now);
  }

  /** Which code a request that gets through is refused with by the store. */
  lemma StoreAnswers(s: State, limits: Limits, cfg: Config, foreign: Env, remote: Bytes, req: Request, clocks: Clocks)
    requires GetsThrough(s, limits, cfg, foreign, remote, req, clocks)
    requires Consistent(Box(s.world, req.message.value.recipientId)) && TimesFit(Completed(cfg, req), clocks.store)
    ensures var resp := HandleSpec(s, limits, cfg, foreign, remote, req, clocks).1;
            var env := Completed(cfg, req);
            var b := Box(s.world, env.recipientId);
            var small := SmallEnough(cfg, foreign, env);
            var full, large := TooMany(b, cfg), TooLarge(b, cfg, foreign, env, clocks.store);
            && (foreign.envelopeSize(env).None? ==> resp == Refused(InternalError))
            && (foreign.envelopeSize(env).Some? && !small ==> resp == Refused(MessageTooLarge))
            && (small && !IsLive(b, env.msgId) && full ==> resp == Refused(RecipientQuotaExceeded))
            && (small && !IsLive(b, env.msgId) && !full && large ==> resp == Refused(RecipientBytesExceeded))
            && (resp.Accepted? <==> small && (IsLive(b, env.msgId) || (!full && !large)))
  {
    var env := Completed(cfg, req);
    CompletedKeeps(cfg, req);
    hide HandleSpec, GetsThrough, Consistent, Persist, IsLive, TooMany, TooLarge, SmallEnough, Completed;
    ThroughIsPersisted(s, limits, cfg, foreign, remote, req, clocks);
    PersistAnswers(s.world, cfg, foreign, env, clocks.store);
  }

  lemma CompletedKeeps(cfg: Config, req: Request)
    requires req.message.Some?
    ensures var m, env := req.message.value, Completed(cfg, req);
            && env.msgId == m.msgId && env.senderId == m.senderId && env.recipientId == m.recipientId
            && env.content == m.content
  {
  }

  lemma NotInvalid(b: Mailbox, env: Envelope, now: int, quota: Option<Quota>, size: Sizer)
    ensures !Store(b, env, now, quota, size).1.InvalidPayload?
  {
    hide TotalBytes;
  }

  /***** Acceptances *****/

  /** What a successful store answers with is in the mailbox. */
  lemma StoreAnswerHolds(b: Mailbox, env: Envelope, now: int, quota: Option<Quota>, size: Sizer)
    requires Consistent(b) && TimesFit(env, now)
    ensures var (b', reply) := Store(b, env, now, quota, size);
            && (reply.Duplicate? ==>
                  && b' == b && reply.storeSeq in b.msgs && b.msgs[reply.storeSeq].envelope.msgId == env.msgId
                  && b.msgs[reply.storeSeq].expireAt == reply.expireAt)
            && (reply.Stored? ==>
                  && reply.storeSeq == NextNumber(b) && reply.expireAt == ExpiryOf(env, now)
                  && b'.msgs == b.msgs[reply.storeSeq := Entry(now, reply.expireAt, env)])
  {
    NoStaleDuplicate(b, env.msgId);
    hide TotalBytes, ExpiryOf, NewEntry;
    EntryExact(env, now);
  }

  /**
   An accepted request is answered as a duplicate exactly when its id was live, with the number and
   expiry of the message that has it; otherwise with the next number, under which the message is
   stored as it came, with the default time to live if it had none, and with the time it expires.
   */
  lemma AcceptedAnswer(s: State, limits: Limits, cfg: Config, foreign: Env, remote: Bytes, req: Request, clocks: Clocks)
    requires GetsThrough(s, limits, cfg, foreign, remote, req, clocks)
    requires Consistent(Box(s.world, req.message.value.recipientId)) && TimesFit(Completed(cfg, req), clocks.store)
    requires HandleSpec(s, limits, cfg, foreign, remote, req, clocks).1.Accepted?
    ensures var (s', resp) := HandleSpec(s, limits, cfg, foreign, remote, req, clocks);
            var env := Completed(cfg, req);
            var b, b' := Box(s.world, env.recipientId), Box(s'.world, env.recipientId);
            && (resp.duplicate <==> IsLive(b, env.msgId))
            && resp.storeSeq in b'.msgs && b'.msgs[resp.storeSeq].envelope.msgId == env.msgId
            && b'.msgs[resp.storeSeq].expireAt == resp.expireAt
            && (resp.duplicate ==> b' == b)
            && (!resp.duplicate ==>
                  && resp.storeSeq == NextNumber(b) && resp.expireAt == ExpiryOf(env, clocks.store)
                  && b'.msgs == b.msgs[resp.storeSeq := Entry(clocks.store, resp.expireAt, env)])
            && (forall r | r != env.recipientId :: Box(s'.world, r) == Box(s.world, r))
  {
    var env := Completed(cfg, req);
    hide HandleSpec, GetsThrough, Consistent, Mailboxes.Store, TotalBytes, ExpiryOf, Completed;
    ThroughIsPersisted(s, limits, cfg, foreign, remote, req, clocks);
    CompletedKeeps(cfg, req);
    StoreReplies(Box(s.world, env.recipientId), env, clocks.store, Some(cfg.quota), foreign.size);
    StoreAnswerHolds(Box(s.world, env.recipientId), env, clocks.store, Some(cfg.quota), foreign.size);
  }

  /***** Limiters and metrics *****/

  /** The remote limiter counts valid requests, the sender limiter those that are also allowed and signed. */
  lemma LimitersCount(s: State, limits: Limits, cfg: Config, foreign: Env, remote: Bytes, req: Request, clocks: Clocks)
    ensures var gates := HandleSpec(s, limits, cfg, foreign, remote, req, clocks).0.gates;
            && gates.remote == (if Valid(cfg, req) then Step(limits.remote, s.gates.remote, remote, clocks.remote).0
                                else s.gates.remote)
            && gates.sender == (if Valid(cfg, req) && RemoteAllows(s, limits, remote, clocks)
                                   && foreign.verify(Completed(cfg, req)).None?
                                then Step(limits.sender, s.gates.sender, req.message.value.senderId, clocks.sender).0
                                else s.gates.sender)
  {
    hide Step, Persist;
    if req.message.Some? { FilledIsCompleted(cfg, req); }
  }

  function Count(c: bool): nat { if c then 1 else 0 }

  /** Every request is counted, and then at most once: as limited, badly signed, duplicate or stored. */
  lemma MetricsCount(s: State, limits: Limits, cfg: Config, foreign: Env, remote: Bytes, req: Request, clocks: Clocks)
    ensures var (s', resp) := HandleSpec(s, limits, cfg, foreign, remote, req, clocks);
            var old', new' := s.metrics, s'.metrics;
            var allowed := Valid(cfg, req) && RemoteAllows(s, limits, remote, clocks);
            var signed := allowed && foreign.verify(Completed(cfg, req)).None?;
            var senderLimited := signed && !SenderAllows(s, limits, Completed(cfg, req), clocks);
            && new'.requests == old'.requests + 1
            && new'.rateLimited == old'.rateLimited + Count((Valid(cfg, req) && !allowed) || senderLimited)
            && new'.badSignatures == old'.badSignatures + Count(allowed && !signed)
            && new'.duplicates == old'.duplicates + Count(resp.Accepted? && resp.duplicate)
            && new'.successes == old'.successes + Count(resp.Accepted? && !resp.duplicate)
  {
    hide Step, Persist;
    if req.message.Some? { FilledIsCompleted(cfg, req); }
  }
}

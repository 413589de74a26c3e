/** The store request handler: validation, both rate limits, the signature check and the store. */
module StoreService {
  import opened ByteOrder
  import opened Options
  import opened Ascending
  import opened Decimal
  import opened Keys
  import opened Mailboxes
  import opened MailboxLaws
  import opened FlatStore
  import opened PebbleStore
  import opened RateLimit
  import opened Ledger

  /** A store request; `complete` says that the remaining required fields are present. */
  datatype Request = Request(version: int, message: Option<Envelope>, messageVersion: int, complete: bool)

  datatype Code =
    | InvalidPayload
    | TtlTooLarge
    | RateLimited
    | InvalidSignature
    | MessageTooLarge
    | RecipientQuotaExceeded
    | RecipientBytesExceeded
    | InternalError

  datatype Response = Accepted(duplicate: bool, storeSeq: Num, expireAt: int) | Refused(code: Code)

  datatype Config = Config(defaultTtl: int, maxTtl: int, maxMessageSize: int, quota: Quota)

  predicate WellFormedRequest(req: Request)
  {
    && req.message.Some? && req.version == 1 && req.messageVersion == 1 && req.complete
    && req.message.value.msgId != [] && req.message.value.senderId != [] && req.message.value.recipientId != []
  }

  /** The request's message with the default time to live filled in. */
  function Filled(env: Envelope, defaultTtl: int): Envelope
  {
    if env.ttlSec.None? then env.(ttlSec := Some(defaultTtl)) else env
  }

  /***** The gates: remote limit, then signature, then sender limit *****/

  datatype Gates = Gates(remote: Windows, sender: Windows)

  datatype Verdict = RemoteLimited | BadSignature | SenderLimited | Passed

  datatype Limits = Limits(remote: int, sender: int)

  /**
   An attempt that has passed validation: who sent it, whom it claims to be from, whether its
   signature holds, and what each limiter's clock reads when it is asked.
   */
  datatype Attempt = Attempt(remote: Bytes, sender: Bytes, signed: bool, remoteNow: int, senderNow: int)

  function Gate(g: Gates, limits: Limits, a: Attempt): (Gates, Verdict)
  {
    var (remote, ok) := Step(limits.remote, g.remote, a.remote, a.remoteNow);
    if !ok then (g.(remote := remote), RemoteLimited)
    else if !a.signed then (g.(remote := remote), BadSignature)
    else
      var (sender, allowed) := Step(limits.sender, g.sender, a.sender, a.senderNow);
      (Gates(remote, sender), if allowed then Passed else SenderLimited)
  }

  /***** The whole handler on values *****/

  datatype Metrics = Metrics(requests: nat, rateLimited: nat, badSignatures: nat, duplicates: nat, successes: nat)

  datatype State = State(gates: Gates, world: World, metrics: Metrics)

  /** The limiters' clocks in nanoseconds and the store's in seconds, as they are read. */
  datatype Clocks = Clocks(remote: int, sender: int, store: int)

  /** The foreign parts: the verifier's error code, if any, and the encoded sizes. */
  datatype Env = Env(verify: Envelope -> Option<Code>, envelopeSize: Envelope -> Option<nat>, size: Sizer)

  /** The checks that need neither limiters nor the store. */
  function CheckRequest(cfg: Config, req: Request): Option<Code>
  {
    if !WellFormedRequest(req) then Some(Code.InvalidPayload) else
      var ttl := Filled(req.message.value, cfg.defaultTtl).EffectiveTtl(cfg.defaultTtl);
      if ttl <= 0 then Some(Code.InvalidPayload)
      else if ttl > cfg.maxTtl then Some(TtlTooLarge)
      else None
  }

  /** What happens to a message that has passed the gates. */
  ghost function Persist(w: World, cfg: Config, foreign: Env, env: Envelope, now: int): (World, Response)
  {
    match foreign.envelopeSize(env)
    case None => (w, Refused(InternalError))
    case Some(n) =>
      if n > cfg.maxMessageSize then (w, Refused(MessageTooLarge))
      else
        var (b, reply) := Mailboxes.Store(Box(w, env.recipientId), env, now, Some(cfg.quota), foreign.size);
        (w[env.recipientId := b], ResponseOf(reply))
  }

  function Refusal(verdict: Verdict, code: Option<Code>): Response
  {
    if verdict == BadSignature && code.Some? then Refused(code.value) else Refused(RateLimited)
  }

  function Counted(m: Metrics, verdict: Verdict, resp: Response): Metrics
  {
    if verdict == RemoteLimited || verdict == SenderLimited then m.(rateLimited := m.rateLimited + 1)
    else if verdict == BadSignature then m.(badSignatures := m.badSignatures + 1)
    else if resp.Refused? then m
    else if resp.duplicate then m.(duplicates := m.duplicates + 1)
    else m.(successes := m.successes + 1)
  }

  ghost function HandleSpec(s: State, limits: Limits, cfg: Config, foreign: Env, remote: Bytes, req: Request,
                            clocks: Clocks): (State, Response)
  {
    var metrics := s.metrics.(requests := s.metrics.requests + 1);
    match CheckRequest(cfg, req)
    case Some(code) => (s.(metrics := metrics), Refused(code))
    case None =>
      var env := Filled(req.message.value, cfg.defaultTtl);
      var attempt := Attempt(remote, env.senderId, foreign.verify(env).None?, clocks.remote, clocks.sender);
      var (gates, verdict) := Gate(s.gates, limits, attempt);
      if verdict != Passed then
        var resp := Refusal(verdict, foreign.verify(env));
        (State(gates, s.world, Counted(metrics, verdict, resp)), resp)
      else
        var (world, resp) := Persist(s.world, cfg, foreign, env, clocks.store);
        (State(gates, world, Counted(metrics, verdict, resp)), resp)
  }

  function ResponseOf(reply: StoreReply): Response
  {
    match reply
    case Duplicate(n, e) => Accepted(true, n, e)
    case Stored(n, e) => Accepted(false, n, e)
    case QuotaExceeded => Refused(RecipientQuotaExceeded)
    case BytesExceeded => Refused(RecipientBytesExceeded)
    case InvalidPayload => Refused(InternalError)
  }

  class Service {
    const store: PebbleStore.Store
    const remoteLimiter: Limiter
    const senderLimiter: Limiter
    const cfg: Config
    const foreign: Env
    var metrics: Metrics

    ghost predicate Valid()
      reads this, store
    {
      store.Valid() && remoteLimiter != senderLimiter && store.size == foreign.size
    }

    ghost function Abstract(): State
      reads this, store, remoteLimiter, senderLimiter
    {
      State(Gates(remoteLimiter.windows, senderLimiter.windows), store.world, metrics)
    }

    ghost function LimitsOf(): Limits
    {
      Limits(remoteLimiter.limit, senderLimiter.limit)
    }

    constructor (store: PebbleStore.Store, remoteLimiter: Limiter, senderLimiter: Limiter, cfg: Config, foreign: Env)
      requires store.Valid() && remoteLimiter != senderLimiter && store.size == foreign.size
      ensures Valid() && this.store == store && this.cfg == cfg && this.foreign == foreign
      ensures this.remoteLimiter == remoteLimiter && this.senderLimiter == senderLimiter
      ensures metrics == Metrics(0, 0, 0, 0, 0)
    {
      this.store, this.remoteLimiter, this.senderLimiter := store, remoteLimiter, senderLimiter;
      this.cfg, this.foreign := cfg, foreign;
      metrics := Metrics(0, 0, 0, 0, 0);
    }

    /** Validation and the bounds on the time to live. */
    method Validate(req: Request) returns (code: Option<Code>)
      ensures code == CheckRequest(cfg, req)
    {
      if !WellFormedRequest(req) {
        return Some(Code.InvalidPayload);
      }
      var env := Filled(req.message.value, cfg.defaultTtl);
      var ttl := env.EffectiveTtl(cfg.defaultTtl);
      if ttl <= 0 {
        return Some(Code.InvalidPayload);
      }
      if ttl > cfg.maxTtl {
        return Some(TtlTooLarge);
      }
      code := None;
    }

    method CheckGates(remote: Bytes, env: Envelope, clocks: Clocks) returns (verdict: Verdict, code: Option<Code>)
      requires remoteLimiter != senderLimiter
      modifies remoteLimiter, senderLimiter
      ensures (Gates(remoteLimiter.windows, senderLimiter.windows), verdict)
           == Gate(Gates(old(remoteLimiter.windows), old(senderLimiter.windows)), LimitsOf(),
                   Attempt(remote, env.senderId, foreign.verify(env).None?, clocks.remote, clocks.sender))
      ensures verdict == BadSignature ==> code == foreign.verify(env)
    {
      hide Step;
      code := None;
      var allowed := remoteLimiter.Allow(remote, clocks.remote);
      if !allowed {
        return RemoteLimited, None;
      }
      code := foreign.verify(env);
      if code.Some? {
        return BadSignature, code;
      }
      allowed := senderLimiter.Allow(env.senderId, clocks.sender);
      verdict := if allowed then Passed else SenderLimited;
    }

    method StoreAdmitted(env: Envelope, now: int) returns (resp: Response)
      requires Valid() && SlashFree(env.recipientId)
      modifies store
      ensures Valid() && (store.world, resp) == Persist(old(store.world), cfg, foreign, env, now)
    {
      hide Agree, Mailboxes.Store;
      var n := foreign.envelopeSize(env);
      if n.None? {
        return Refused(InternalError);
      }
      if n.value > cfg.maxMessageSize {
        return Refused(MessageTooLarge);
      }
      var reply := store.StoreMessage(Some(env), Some(cfg.quota), now);
      resp := ResponseOf(reply);
    }

    method Handle(remote: Bytes, req: Request, clocks: Clocks) returns (resp: Response)
      requires Valid()
      requires req.message.Some? ==> SlashFree(req.message.value.recipientId)
      modifies this, store, remoteLimiter, senderLimiter
      ensures Valid()
      ensures (Abstract(), resp) == HandleSpec(old(Abstract()), LimitsOf(), cfg, foreign, remote, req, clocks)
    {
      hide Agree, Gate, Persist, CheckRequest;
      metrics := metrics.(requests := metrics.requests + 1);
      var bad := Validate(req);
      if bad.Some? {
        return Refused(bad.value);
      }
      assert req.message.Some? by { ValidHasMessage(cfg, req); }
      var env := Filled(req.message.value, cfg.defaultTtl);
      var verdict, code := CheckGates(remote, env, clocks);
      if verdict == RemoteLimited || verdict == SenderLimited {
        metrics := metrics.(rateLimited := metrics.rateLimited + 1);
        return Refused(RateLimited);
      }
      if verdict == BadSignature {
        metrics := metrics.(badSignatures := metrics.badSignatures + 1);
        resp := Refusal(verdict, code);
        return;
      }
      resp := StoreAdmitted(env, clocks.store);
      if resp.Accepted? {
        if resp.duplicate {
          metrics := metrics.(duplicates := metrics.duplicates + 1);
        } else {
          metrics := metrics.(successes := metrics.successes + 1);
        }
      }
    }
  }

  lemma ValidHasMessage(cfg: Config, req: Request)
    requires CheckRequest(cfg, req).None?
    ensures WellFormedRequest(req)
  {
  }

  /***** Runs of the gates *****/

  function GatesAfter(limits: Limits, run: seq<Attempt>): Gates
  {
    if run == [] then Gates(map[], map[]) else
      Gate(GatesAfter(limits, run[..|run| - 1]), limits, run[|run| - 1]).0
  }

  function LastVerdict(limits: Limits, run: seq<Attempt>): Verdict
    requires run != []
  {
    Gate(GatesAfter(limits, run[..|run| - 1]), limits, run[|run| - 1]).1
  }

  /** The attempts that reach the sender limiter: let through by the remote limit and correctly signed. */
  function Genuine(limits: Limits, run: seq<Attempt>): seq<Call>
  {
    if run == [] then [] else
      var last := run[|run| - 1];
      var rest := Genuine(limits, run[..|run| - 1]);
      if LastVerdict(limits, run) == RemoteLimited || !last.signed then rest
      else rest + [Call(last.sender, last.senderNow)]
  }

  /** Attempts of a claimed sender in a minute that get past all gates. */
  function Admitted(limits: Limits, run: seq<Attempt>, sender: Bytes, minute: int): nat
  {
    if run == [] then 0 else
      var last := run[|run| - 1];
      Admitted(limits, run[..|run| - 1], sender, minute)
      + if LastVerdict(limits, run) == Passed && last.sender == sender && WindowOf(last.senderNow) == minute
        then 1 else 0
  }

  predicate ForwardRun(run: seq<Attempt>)
  {
    forall i, j | 0 <= i <= j < |run| :: run[i].senderNow <= run[j].senderNow
  }

  /** The sender limiter only ever sees genuine attempts, in order. */
  lemma {:induction false} SenderSeesGenuine(limits: Limits, run: seq<Attempt>)
    ensures GatesAfter(limits, run).sender == After(limits.sender, Genuine(limits, run))
  {
    if run == [] {
    } else {
      var front, last := run[..|run| - 1], run[|run| - 1];
      SenderSeesGenuine(limits, front);
      var rest := Genuine(limits, front);
      assert (rest + [Call(last.sender, last.senderNow)])[..|rest|] == rest;
    }
  }

  lemma {:induction false} GenuineIsForward(limits: Limits, run: seq<Attempt>)
    requires ForwardRun(run)
    ensures Forward(Genuine(limits, run))
    ensures forall i | 0 <= i < |Genuine(limits, run)| ::
              run != [] && Genuine(limits, run)[i].now <= run[|run| - 1].senderNow
  {
    if run == [] {
    } else {
      var front := run[..|run| - 1];
      GenuineIsForward(limits, front);
      assert front != [] ==> front[|front| - 1].senderNow <= run[|run| - 1].senderNow;
    }
  }

  lemma {:induction false} AdmittedIsAllowed(limits: Limits, run: seq<Attempt>, sender: Bytes, minute: int)
    ensures Admitted(limits, run, sender, minute) == Allowed(limits.sender, Genuine(limits, run), sender, minute)
  {
    if run == [] {
    } else {
      var front, last := run[..|run| - 1], run[|run| - 1];
      AdmittedIsAllowed(limits, front, sender, minute);
      SenderSeesGenuine(limits, front);
      var rest := Genuine(limits, front);
      assert (rest + [Call(last.sender, last.senderNow)])[..|rest|] == rest;
    }
  }

  /**
   Attempts with a bad signature never use up the allowance of the sender they claim: in a minute
   a sender gets exactly the first `limit` of its genuine attempts if and only if it makes no more
   than that or they come in one stretch, and never fewer.
   */
  lemma SenderAllowanceIff(limits: Limits, run: seq<Attempt>, sender: Bytes, minute: int)
    requires limits.sender > 0
    ensures var genuine := Genuine(limits, run);
            var calls := Calls(genuine, sender, minute);
            && (Admitted(limits, run, sender, minute) == Smaller(limits.sender, calls)
                <==> calls <= limits.sender || Visits(genuine, sender, minute) <= 1)
            && Admitted(limits, run, sender, minute) >= Smaller(limits.sender, calls)
  {
    AdmittedIsAllowed(limits, run, sender, minute);
    RateIsExactIff(limits.sender, Genuine(limits, run), sender, minute);
  }

  /** With a sender clock that does not go back, the allowance is exact in every minute. */
  lemma SenderAllowance(limits: Limits, run: seq<Attempt>, sender: Bytes, minute: int)
    requires limits.sender > 0 && ForwardRun(run)
    ensures Admitted(limits, run, sender, minute)
         == Smaller(limits.sender, Calls(Genuine(limits, run), sender, minute))
  {
    AdmittedIsAllowed(limits, run, sender, minute);
    GenuineIsForward(limits, run);
    RateIsExact(limits.sender, Genuine(limits, run), sender, minute);
  }

  /***** Runs of requests *****/

  /** A request as it arrives: from whom, and what the clocks read while it is handled. */
  datatype Arrival = Arrival(remote: Bytes, req: Request, clocks: Clocks)

  function AttemptOf(cfg: Config, foreign: Env, a: Arrival): Attempt
    requires CheckRequest(cfg, a.req).None?
  {
    var env := Filled(a.req.message.value, cfg.defaultTtl);
    Attempt(a.remote, env.senderId, foreign.verify(env).None?, a.clocks.remote, a.clocks.sender)
  }

  /** The attempts of the requests that pass validation. */
  function Attempts(cfg: Config, foreign: Env, run: seq<Arrival>): seq<Attempt>
  {
    if run == [] then [] else
      var last := run[|run| - 1];
      Attempts(cfg, foreign, run[..|run| - 1])
      + if CheckRequest(cfg, last.req).None? then [AttemptOf(cfg, foreign, last)] else []
  }

  ghost function HandleAll(s: State, limits: Limits, cfg: Config, foreign: Env, run: seq<Arrival>): State
  {
    if run == [] then s else
      var last := run[|run| - 1];
      HandleSpec(HandleAll(s, limits, cfg, foreign, run[..|run| - 1]), limits, cfg, foreign,
                 last.remote, last.req, last.clocks).0
  }

  /** Over a run of requests, the limiters are where the attempts of the valid requests put them. */
  lemma {:induction false} RequestsAreAttempts(s: State, limits: Limits, cfg: Config, foreign: Env, run: seq<Arrival>)
    requires s.gates == Gates(map[], map[])
    ensures HandleAll(s, limits, cfg, foreign, run).gates == GatesAfter(limits, Attempts(cfg, foreign, run))
  {
    hide Gate, Persist, Counted;
    if run == [] {
    } else {
      var front, last := run[..|run| - 1], run[|run| - 1];
      RequestsAreAttempts(s, limits, cfg, foreign, front);
      var before := Attempts(cfg, foreign, front);
      if CheckRequest(cfg, last.req).None? {
        assert (before + [AttemptOf(cfg, foreign, last)])[..|before|] == before;
      } else {
        assert before + [] == before;
      }
    }
  }

  /** The request is valid and the limiters and the signature check let it through to the store. */
  ghost predicate LetThrough(s: State, limits: Limits, cfg: Config, foreign: Env, a: Arrival)
  {
    CheckRequest(cfg, a.req).None? && Gate(s.gates, limits, AttemptOf(cfg, foreign, a)).1 == Passed
  }

  predicate IsFrom(a: Arrival, sender: Bytes, minute: int)
  {
    a.req.message.Some? && a.req.message.value.senderId == sender && WindowOf(a.clocks.sender) == minute
  }

  /** The requests of a claimed sender in a minute that reach the store. */
  ghost function Reaching(s: State, limits: Limits, cfg: Config, foreign: Env, run: seq<Arrival>,
                          sender: Bytes, minute: int): nat
  {
    if run == [] then 0 else
      var front, last := run[..|run| - 1], run[|run| - 1];
      Reaching(s, limits, cfg, foreign, front, sender, minute)
      + if IsFrom(last, sender, minute)
           && LetThrough(HandleAll(s, limits, cfg, foreign, front), limits, cfg, foreign, last) then 1 else 0
  }

  lemma {:induction false} ReachingIsAdmitted(s: State, limits: Limits, cfg: Config, foreign: Env, run: seq<Arrival>,
                                              sender: Bytes, minute: int)
    requires s.gates == Gates(map[], map[])
    ensures Reaching(s, limits, cfg, foreign, run, sender, minute)
         == Admitted(limits, Attempts(cfg, foreign, run), sender, minute)
  {
    hide Gate, HandleAll;
    if run == [] {
    } else {
      var front, last := run[..|run| - 1], run[|run| - 1];
      ReachingIsAdmitted(s, limits, cfg, foreign, front, sender, minute);
      RequestsAreAttempts(s, limits, cfg, foreign, front);
      var before := Attempts(cfg, foreign, front);
      if CheckRequest(cfg, last.req).None? {
        assert (before + [AttemptOf(cfg, foreign, last)])[..|before|] == before;
      } else {
        assert before + [] == before;
      }
    }
  }

  /**
   The allowance over runs of requests: of a sender's requests in a minute that are valid, within
   their remote's limit and correctly signed, exactly the first `limit` reach the store, if and only
   if they are no more than that or come in one stretch; and never fewer do. Requests that are
   invalid or badly signed take nothing away.
   */
  lemma RequestAllowanceIff(s: State, limits: Limits, cfg: Config, foreign: Env, run: seq<Arrival>,
                            sender: Bytes, minute: int)
    requires limits.sender > 0 && s.gates == Gates(map[], map[])
    ensures var genuine := Genuine(limits, Attempts(cfg, foreign, run));
            var calls := Calls(genuine, sender, minute);
            var reaching := Reaching(s, limits, cfg, foreign, run, sender, minute);
            && (reaching == Smaller(limits.sender, calls)
                <==> calls <= limits.sender || Visits(genuine, sender, minute) <= 1)
            && reaching >= Smaller(limits.sender, calls)
  {
    ReachingIsAdmitted(s, limits, cfg, foreign, run, sender, minute);
    SenderAllowanceIff(limits, Attempts(cfg, foreign, run), sender, minute);
  }

  /***** Single requests *****/

  /** The time to live that a request asks for, or the default. */
  function TtlOf(cfg: Config, env: Envelope): int
  {
    if env.ttlSec.Some? then env.ttlSec.value else cfg.defaultTtl
  }

  /** The message fits into the recipient's quota. */
  ghost predicate Fits(b: Mailbox, m: StoredMessage, quota: Quota, size: Sizer)
  {
    && (quota.maxMessages <= 0 || |b.msgs| < quota.maxMessages)
    && (quota.maxBytes <= 0 || TotalBytes(b.msgs, size) + size(m) <= quota.maxBytes)
  }

  /**
   A request is accepted exactly when it is well formed with a time to live in range, both limiters
   allow it, its signature holds, it is small enough, and it is a duplicate or fits the quota.
   */
  lemma AcceptedIff(s: State, limits: Limits, cfg: Config, foreign: Env, remote: Bytes, req: Request, clocks: Clocks)
    ensures HandleSpec(s, limits, cfg, foreign, remote, req, clocks).1.Accepted?
       <==> && WellFormedRequest(req)
            && var env := Filled(req.message.value, cfg.defaultTtl);
               var b := Box(s.world, env.recipientId);
               && 0 < TtlOf(cfg, req.message.value) <= cfg.maxTtl
               && Step(limits.remote, s.gates.remote, remote, clocks.remote).1
               && foreign.verify(env).None?
               && Step(limits.sender, s.gates.sender, env.senderId, clocks.sender).1
               && foreign.envelopeSize(env).Some? && foreign.envelopeSize(env).value <= cfg.maxMessageSize
               && (IsDuplicate(b, env.msgId)
                   || Fits(b, StoredMessage(NextSeq(b.last), NewEntry(env, clocks.store)), cfg.quota, foreign.size))
  {
    hide Step, TotalBytes;
  }

  lemma PersistKeeps(w: World, cfg: Config, foreign: Env, env: Envelope, now: int)
    requires WorldConsistent(w)
    ensures var (w', resp) := Persist(w, cfg, foreign, env, now);
            && (resp.Refused? ==> forall r :: Box(w', r) == Box(w, r))
            && (env.msgId != [] && Box(w, env.recipientId).last < MAX_UINT64 ==> WorldConsistent(w'))
  {
    hide Consistent, Mailboxes.Store;
    var b := Box(w, env.recipientId);
    BoxConsistent(w, env.recipientId);
    RejectedStoreAssignsNothing(b, env, now, Some(cfg.quota), foreign.size);
    if env.msgId != [] && b.last < MAX_UINT64 {
      StoreKeeps(b, env, now, Some(cfg.quota), foreign.size);
    }
  }

  /**
   Only a request that passes every gate can change a mailbox, and as long as numbers last every
   request leaves the mailboxes consistent.
   */
  lemma RefusedKeepsWorld(s: State, limits: Limits, cfg: Config, foreign: Env, remote: Bytes, req: Request,
                          clocks: Clocks)
    requires WorldConsistent(s.world)
    ensures var (s', resp) := HandleSpec(s, limits, cfg, foreign, remote, req, clocks);
            && (resp.Refused? ==> forall r :: Box(s'.world, r) == Box(s.world, r))
            && (!WellFormedRequest(req) || foreign.verify(Filled(req.message.value, cfg.defaultTtl)).Some? ==>
                  s'.gates.sender == s.gates.sender)
            && (resp.Accepted? ==> req.message.Some? && foreign.verify(Filled(req.message.value, cfg.defaultTtl)).None?)
            && (req.message.Some? && Box(s.world, req.message.value.recipientId).last < MAX_UINT64 ==>
                  WorldConsistent(s'.world))
  {
    hide Consistent, Step, Persist, WorldConsistent;
    if req.message.Some? {
      PersistKeeps(s.world, cfg, foreign, Filled(req.message.value, cfg.defaultTtl), clocks.store);
    }
  }
}

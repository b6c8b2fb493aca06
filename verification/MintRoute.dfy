/** Minting a bind token through the RPC routes: the request, the dispatcher, the store and the stream together. */
module MintRoute {
  import opened Prelude
  import opened Json
  import opened Schema
  import opened Registry
  import opened Lookup
  import opened LegacyAliases
  import opened Routing
  import opened BindTokens
  import opened EventsEndpoint

  /** What one request takes from its surroundings: the clock before the lock, under it and at the reply,
      and the random token. The clock does not run backwards. */
  datatype Surroundings = Surroundings(started: Instant, now: Instant, replied: Instant, token: string)

  type Moment = s: Surroundings | s.started <= s.now <= s.replied witness Surroundings(0, 0, 0, "")

  lemma ReplyFits(ledger: Ledger, params: Value, m: Moment)
    ensures var r := Subscribed(ledger, params, m.started, m.now, m.replied, m.token).1;
            r.Ok? ==> r.value.1 * SECOND <= MAX_TTL
  {
  }

  /** The body of `core.events_subscribe_token`, on the ledger. */
  function Mint(m: Moment, ledger: Ledger, params: Value): (Ledger, Result<Value, string>) {
    ReplyFits(ledger, params, m);
    var (after, r) := Subscribed(ledger, params, m.started, m.now, m.replied, m.token);
    match r
    case Ok(reply) => (after, Ok(Object(map["token" := Str(reply.0), "ttl_secs" := Num(PosInt(reply.1))])))
    case Err(MissingClientId) => (after, Err(NoClientId.Render()))
    case Err(AtCapacity) => (after, Err(TokensExhausted.Render()))
  }

  /** A core whose world is the ledger, whose minting body is that of the store and whose alias table
      leaves the subscription method alone. */
  ghost predicate Mints(core: Core<Ledger>, m: Moment) {
    && !IsAlias(core.aliases, SUBSCRIBE)
    && forall ledger, params :: core.mint(ledger, params) == Mint(m, ledger, params)
  }

  /** The table of the core does. */
  lemma SubscribeIsNoAlias()
    ensures !IsAlias(LEGACY_ALIASES, SUBSCRIBE)
  {
    assert LooksCanonical(SUBSCRIBE);
    TableIsSeparated();
  }

  /** Whatever is registered, the request reaches the minting body and no handler. */
  lemma RequestReachesMint(core: Core<Ledger>, m: Moment, ledger: Ledger, params: Value)
    requires Mints(core, m)
    ensures InvokeMethodInner(core, ledger, SUBSCRIBE, params) == Outcome(Mint(m, ledger, params).0, [], Mint(m, ledger, params).1)
  {
    SubscribeIsMinted(core, ledger, params);
  }

  /** The two refusals of the store, as the caller sees them. */
  predicate RefusedWith(result: Result<Value, string>, e: EarlyError) {
    result.Err? && result.error == e.Render()
  }

  lemma RefusalsDiffer(result: Result<Value, string>)
    ensures !RefusedWith(result, NoClientId) || !RefusedWith(result, TokensExhausted)
    ensures RefusedWith(result, NoClientId) || RefusedWith(result, TokensExhausted) ==> !IsParamValidationError(result.error)
  {
    assert NoClientId.Render()[0] == 'm' && TokensExhausted.Render()[0] == 'e';
    ClassedAsValidationExactly(NoClientId);
    ClassedAsValidationExactly(TokensExhausted);
  }

  /** The reply holds the new token and its remaining seconds. */
  ghost predicate RepliesWith(result: Result<Value, string>, token: string, seconds: nat) {
    && result.Ok?
    && Field(result.value, "token") == Some(Str(token))
    && Field(result.value, "ttl_secs") == (if seconds < 0x1_0000_0000_0000_0000 then Some(Num(PosInt(seconds))) else None)
  }

  lemma FieldsOfReply(token: Value, seconds: Value)
    ensures Field(Object(map["token" := token, "ttl_secs" := seconds]), "token") == Some(token)
    ensures Field(Object(map["token" := token, "ttl_secs" := seconds]), "ttl_secs") == Some(seconds)
  {
    assert "token"[1] == 'o' && "ttl_secs"[1] == 't';
  }

  lemma MintReplies(m: Moment, ledger: Ledger, params: Value)
    ensures var (after, r) := Subscribed(ledger, params, m.started, m.now, m.replied, m.token);
            && Mint(m, ledger, params).0 == after
            && match r
               case Ok(reply) => RepliesWith(Mint(m, ledger, params).1, reply.0, reply.1)
               case Err(MissingClientId) => RefusedWith(Mint(m, ledger, params).1, NoClientId)
               case Err(AtCapacity) => RefusedWith(Mint(m, ledger, params).1, TokensExhausted)
  {
    var reply := Subscribed(ledger, params, m.started, m.now, m.replied, m.token).1;
    ReplyFits(ledger, params, m);
    if reply.Ok? {
      FieldsOfReply(Str(reply.value.0), Num(PosInt(reply.value.1)));
    }
  }

  /** What a subscription request comes to. No handler runs. Without a client id or at capacity the ledger is untouched
      and the error is that very one, not classed as parameter validation; otherwise the new token is in the ledger
      for the trimmed id, and in the reply. */
  ghost predicate SubscribeOutcome(outcome: Outcome<Ledger>, m: Moment, ledger: Ledger, params: Value) {
    var client := RequestedClient(params);
    var full := |LiveTokens(ledger, m.now)| >= MAX_TOKENS;
    var validUntil := m.started + EffectiveTtl(RequestedTtl(params));
    && outcome.calls == []
    && (RefusedWith(outcome.result, NoClientId) <==> client.None?)
    && (RefusedWith(outcome.result, TokensExhausted) <==> client.Some? && full)
    && (outcome.result.Err? ==> outcome.world == ledger && !IsParamValidationError(outcome.result.error))
    && (outcome.result.Ok? <==> client.Some? && !full)
    && (outcome.result.Ok? ==>
          && outcome.world == ledger[m.token := LedgerEntry(client.value, validUntil, false)]
          && RepliesWith(outcome.result, m.token, SecondsLeft(validUntil, m.replied)))
  }

  lemma MintOutcome(m: Moment, ledger: Ledger, params: Value)
    ensures SubscribeOutcome(Outcome(Mint(m, ledger, params).0, [], Mint(m, ledger, params).1), m, ledger, params)
  {
    MintReplies(m, ledger, params);
    RefusalsDiffer(Mint(m, ledger, params).1);
  }

  /** A subscription request through the routes, whatever is registered. */
  lemma SubscribeThroughTheRoutes(core: Core<Ledger>, m: Moment, ledger: Ledger, params: Value)
    requires Mints(core, m)
    ensures SubscribeOutcome(InvokeMethodInner(core, ledger, SUBSCRIBE, params), m, ledger, params)
  {
    RequestReachesMint(core, m, ledger, params);
    MintOutcome(m, ledger, params);
  }

  /** The token in the reply opens the stream for the trimmed client id, once, at any time before it expires. */
  lemma ReplyOpensTheStream(outcome: Outcome<Ledger>, m: Moment, ledger: Ledger, params: Value, later: Instant)
    requires SubscribeOutcome(outcome, m, ledger, params) && outcome.result.Ok? && IsHexToken(m.token)
    requires later < m.started + EffectiveTtl(RequestedTtl(params))
    ensures var client := RequestedClient(params);
            var token := Field(outcome.result.value, "token");
            && client.Some? && token.Some? && token.value.Str?
            && Verdict(outcome.world, false, client.value, Some(token.value.s), later) == Open
            && Verdict(LedgerStep(outcome.world, Consume(client.value, token.value.s, later)).0, false, client.value,
                       Some(token.value.s), later) == BadBindToken
  {
    SubscribeThenOpenTrimmed(ledger, params, RequestedClient(params).value, m.started, m.now, m.token, later);
  }
}

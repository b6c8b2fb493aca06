/** Minting a bind token over RPC, and the credential decision that opens `/events`. */
module EventsEndpoint {
  import opened Prelude
  import opened Text
  import opened Json
  import opened BindTokens
  import Auth

  datatype MintError = MissingClientId | AtCapacity

  datatype Decision = Open | MissingCredentials | BadBindToken

  /** `generate_token` in the store: 64 lower-case hexadecimal digits. */
  predicate IsHexToken(token: string) {
    |token| == 64 && forall i :: 0 <= i < 64 ==> '0' <= token[i] <= '9' || 'a' <= token[i] <= 'f'
  }

  function Field(params: Value, key: string): Option<Value> {
    if params.Object? && key in params.fields then Some(params.fields[key]) else None
  }

  /** The trimmed `client_id`, unless it is absent, not a string, or blank. */
  function RequestedClient(params: Value): Option<string> {
    match Field(params, "client_id")
    case Some(Str(s)) => if Trim(s) == "" then None else Some(Trim(s))
    case _ => None
  }

  function RequestedTtl(params: Value): Option<Duration> {
    match Field(params, "ttl_secs")
    case Some(Num(PosInt(n))) => Some(n * SECOND)
    case _ => None
  }

  /** Whole seconds left at `now`, zero once expired. */
  function SecondsLeft(validUntil: Instant, now: Instant): (seconds: nat)
    ensures now <= validUntil ==> seconds * SECOND <= validUntil - now < (seconds + 1) * SECOND
    ensures validUntil < now ==> seconds == 0
  {
    if now <= validUntil then (validUntil - now) / SECOND else 0
  }

  /** What a subscription request does to the ledger, and its reply: without a client id nothing; else one
      `issue` for the trimmed id. `replied` is the clock when the reply is built. */
  function Subscribed(ledger: Ledger, params: Value, started: Instant, now: Instant, replied: Instant, token: string)
    : (Ledger, Result<(string, nat), MintError>)
  {
    match RequestedClient(params)
    case None => (ledger, Err(MissingClientId))
    case Some(client) =>
      var (after, reply) := LedgerStep(ledger, Step.Issue(client, RequestedTtl(params), started, now, token));
      match reply
      case Minted(validUntil) => (after, Ok((token, SecondsLeft(validUntil, replied))))
      case _ => (after, Err(AtCapacity))
  }

  /** `core.events_subscribe_token`. */
  method HandleSubscribeToken(tokens: BindTokenStore, params: Value, started: Instant, now: Instant, replied: Instant,
                              token: string)
    returns (r: Result<(string, nat), MintError>)
    requires tokens.Valid() && tokens.clock <= now && token !in tokens.ledger
    modifies tokens
    ensures tokens.Valid()
    ensures (tokens.ledger, r) == Subscribed(old(tokens.ledger), params, started, now, replied, token)
    ensures tokens.clock == if RequestedClient(params).Some? then now else old(tokens.clock)
  {
    var client := RequestedClient(params);
    if client.None? {
      return Err(MissingClientId);
    }
    var minted := tokens.Issue(client.value, RequestedTtl(params), started, now, token);
    if minted.None? {
      return Err(AtCapacity);
    }
    return Ok((token, SecondsLeft(minted.value, replied)));
  }

  /** The bearer of an `Authorization` header: what follows the scheme, trimmed, if not blank. */
  function BearerOf(header: Option<string>): Option<string> {
    match header
    case Some(h) =>
      if StartsWith(h, "Bearer ") && Trim(h[|"Bearer "|..]) != "" then Some(Trim(h[|"Bearer "|..])) else None
    case None => None
  }

  function SuppliedToken(query: Option<string>): Option<string> {
    match query
    case Some(t) => if Trim(t) == "" then None else Some(Trim(t))
    case None => None
  }

  predicate BearerOk(header: Option<string>, rpcToken: Option<string>) {
    BearerOf(header).Some? && rpcToken.Some? && BearerOf(header).value == rpcToken.value
  }

  /** The header is the scheme, one space, and the token in memory with any whitespace around it. */
  ghost predicate CarriesBearer(header: Option<string>, rpcToken: Option<string>) {
    && rpcToken.Some? && rpcToken.value != "" && Trimmed(rpcToken.value)
    && exists rest :: header == Some("Bearer " + rest) && Pads(rest, rpcToken.value)
  }

  lemma BearerOkExactly(header: Option<string>, rpcToken: Option<string>)
    ensures BearerOk(header, rpcToken) <==> CarriesBearer(header, rpcToken)
  {
    if header.Some? && rpcToken.Some? {
      var h, scheme := header.value, "Bearer ";
      if StartsWith(h, scheme) {
        assert h == scheme + h[|scheme|..];
        TrimExactly(h[|scheme|..], rpcToken.value);
      }
      forall rest | header == Some(scheme + rest)
        ensures StartsWith(h, scheme) && h[|scheme|..] == rest
      {
      }
    }
  }

  /** The query token that counts is the trimmed one, unless it is blank. */
  lemma SuppliedTokenExactly(query: Option<string>, token: string)
    ensures SuppliedToken(query) == Some(token) <==>
            query.Some? && token != "" && Trimmed(token) && Pads(query.value, token)
  {
    if query.Some? {
      TrimExactly(query.value, token);
    }
  }

  /** What a ledger answers to a request for the stream. */
  function Verdict(ledger: Ledger, bearerOk: bool, clientId: string, query: Option<string>, now: Instant): Decision {
    if bearerOk then Open
    else if SuppliedToken(query).None? then MissingCredentials
    else
      var token := SuppliedToken(query).value;
      if Live(ledger, token, now) && ledger[token].clientId == clientId then Open else BadBindToken
  }

  /** Which credentials decide: the bearer alone if it is right; without it and without a query token none; else the query token. */
  lemma VerdictExactly(ledger: Ledger, bearerOk: bool, clientId: string, query: Option<string>, now: Instant)
    ensures var v := Verdict(ledger, bearerOk, clientId, query, now);
            && (v == Open <==> bearerOk || exists token ::
                  && query.Some? && token != "" && Trimmed(token) && Pads(query.value, token)
                  && token in ledger && !ledger[token].used && now < ledger[token].validUntil && ledger[token].clientId == clientId)
            && (v == MissingCredentials <==> !bearerOk && (query.None? || Blank(query.value)))
  {
    if query.Some? {
      TrimEmptyIffBlank(query.value);
      forall token {
        SuppliedTokenExactly(query, token);
      }
    }
  }

  /** The stream opens for the right bearer, which costs no token, or for a live token of this client,
      which is then used up; nothing else changes the ledger. */
  method EventsHandler(tokens: BindTokenStore, rpcToken: Option<string>, header: Option<string>,
                       clientId: string, query: Option<string>, now: Instant)
    returns (decision: Decision)
    requires tokens.Valid() && tokens.clock <= now
    modifies tokens
    ensures tokens.Valid()
    ensures decision == Verdict(old(tokens.ledger), CarriesBearer(header, rpcToken), clientId, query, now)
    ensures tokens.ledger ==
            if decision == Open && !CarriesBearer(header, rpcToken)
            then old(tokens.ledger)[SuppliedToken(query).value := old(tokens.ledger)[SuppliedToken(query).value].(used := true)]
            else old(tokens.ledger)
  {
    BearerOkExactly(header, rpcToken);
    var bearerOk := false;
    if BearerOf(header).Some? && rpcToken.Some? {
      bearerOk := Auth.BearerMatches(BearerOf(header).value, rpcToken.value);
    }
    if !bearerOk {
      var supplied := SuppliedToken(query);
      if supplied.None? {
        return MissingCredentials;
      }
      var accepted := tokens.Consume(clientId, supplied.value, now);
      if !accepted {
        return BadBindToken;
      }
    }
    return Open;
  }

  /** The token in memory, after the scheme and with any whitespace around it, opens the stream. */
  lemma BearerOpens(ledger: Ledger, token: string, pre: string, post: string, clientId: string, query: Option<string>, now: Instant)
    requires token != "" && Trimmed(token) && Blank(pre) && Blank(post)
    ensures CarriesBearer(Some("Bearer " + pre + token + post), Some(token))
    ensures Verdict(ledger, BearerOk(Some("Bearer " + pre + token + post), Some(token)), clientId, query, now) == Open
  {
    var header := Some("Bearer " + pre + token + post);
    assert "Bearer " + pre + token + post == "Bearer " + (pre + token + post);
    assert Pads(pre + token + post, token);
    BearerOkExactly(header, Some(token));
  }

  /** The client a request names is its `client_id` without the whitespace around it, if any text is left. */
  lemma RequestedClientExactly(params: Value, client: string)
    ensures RequestedClient(params) == Some(client) <==>
            && client != "" && Trimmed(client)
            && params.Object? && "client_id" in params.fields
            && exists padded :: params.fields["client_id"] == Str(padded) && Pads(padded, client)
  {
    var field := Field(params, "client_id");
    if field.Some? && field.value.Str? {
      TrimExactly(field.value.s, client);
    }
  }

  /** The expiry of a new token: `ttl_secs` seconds after the request began if that is a natural number, and a
      minute without one, but never more than half an hour. */
  lemma ExpiryExactly(ledger: Ledger, params: Value, started: Instant, now: Instant, replied: Instant, token: string)
    requires RequestedClient(params).Some? && |LiveTokens(ledger, now)| < MAX_TOKENS
    ensures var asked := if "ttl_secs" in params.fields && params.fields["ttl_secs"].IsU64() then params.fields["ttl_secs"].num.n else 60;
            var seconds := if asked < 1800 then asked else 1800;
            Subscribed(ledger, params, started, now, replied, token).0 ==
            ledger[token := LedgerEntry(RequestedClient(params).value, started + seconds * 1_000_000_000, false)]
  {
  }

  lemma HexTokenIsTrimmed(token: string)
    requires IsHexToken(token)
    ensures SuppliedToken(Some(token)) == Some(token)
  {
    TrimOfTrimmed(token);
  }

  /** Mint, then open the stream under the same client id in time: this works exactly when
      the id carries no surrounding whitespace, because minting trims it and opening does not. */
  lemma SubscribeThenOpen(ledger: Ledger, params: Value, clientId: string, started: Instant, now: Instant, token: string,
                          later: Instant)
    requires IsHexToken(token)
    requires Field(params, "client_id") == Some(Str(clientId)) && !Blank(clientId)
    requires |LiveTokens(ledger, now)| < MAX_TOKENS
    requires later < started + EffectiveTtl(RequestedTtl(params))
    ensures RequestedClient(params).Some?
    ensures var step := Step.Issue(RequestedClient(params).value, RequestedTtl(params), started, now, token);
            var minted := LedgerStep(ledger, step).0;
            Verdict(minted, false, clientId, Some(token), later) == Open <==> Trimmed(clientId)
  {
    TrimEmptyIffBlank(clientId);
    HexTokenIsTrimmed(token);
    var pre, post := TrimSplits(clientId);
    if Trimmed(clientId) {
      TrimOfTrimmed(clientId);
    }
  }

  /** The id `" a"` is minted for and then refused. */
  lemma PaddedIdIsRefused(token: string)
    requires IsHexToken(token)
    ensures var params := Object(map["client_id" := Str(" a")]);
            var step := Step.Issue("a", None, 0, 0, token);
            && RequestedClient(params) == Some("a") && RequestedTtl(params) == None
            && Verdict(LedgerStep(map[], step).0, false, "a", Some(token), 1) == Open
            && Verdict(LedgerStep(map[], step).0, false, " a", Some(token), 1) == BadBindToken
  {
    TrimPadding(" ", "a", "");
    assert " " + "a" + "" == " a";
    HexTokenIsTrimmed(token);
    assert LiveTokens(map[], 0) == {};
  }

  /** Opening under the trimmed id works in time, and works once. */
  lemma SubscribeThenOpenTrimmed(ledger: Ledger, params: Value, clientId: string, started: Instant, now: Instant, token: string,
                                 later: Instant)
    requires IsHexToken(token)
    requires RequestedClient(params) == Some(clientId)
    requires |LiveTokens(ledger, now)| < MAX_TOKENS
    requires later < started + EffectiveTtl(RequestedTtl(params))
    ensures var minted := LedgerStep(ledger, Step.Issue(clientId, RequestedTtl(params), started, now, token)).0;
            Verdict(minted, false, clientId, Some(token), later) == Open
            && Verdict(LedgerStep(minted, Consume(clientId, token, later)).0, false, clientId, Some(token), later) == BadBindToken
  {
    HexTokenIsTrimmed(token);
  }
}

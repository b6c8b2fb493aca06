/** The single-shot bind-token store behind the `/events` stream.

    The store is a map that is purged of expired entries on every access and refuses to
    grow past a ceiling. The specification is a ledger that never forgets a token. */
module BindTokens {
  import opened Prelude

  /** Instants and durations are counted in nanoseconds. */
  type Instant = nat
  type Duration = nat

  const SECOND: Duration := 1_000_000_000
  const DEFAULT_TTL: Duration := 60 * SECOND
  const MAX_TTL: Duration := 60 * 30 * SECOND
  const MAX_TOKENS: nat := 4096

  datatype BindEntry = BindEntry(clientId: string, validUntil: Instant)

  type Store = map<string, BindEntry>

  /** One atomic access to the store. `issue` reads the clock before it takes the lock
      (`started`) and again while it holds it (`now`); other steps may fall in between.
      The random token is an input. */
  datatype Step =
    | Issue(clientId: string, ttl: Option<Duration>, started: Instant, now: Instant, token: string)
    | Consume(clientId: string, token: string, now: Instant)

  datatype Reply = Minted(validUntil: Instant) | Refused | Accepted | Rejected

  function EffectiveTtl(ttl: Option<Duration>): (d: Duration)
    ensures d <= MAX_TTL
    ensures ttl == None ==> d == DEFAULT_TTL
    ensures ttl.Some? ==> d <= ttl.value && (d == ttl.value || d == MAX_TTL)
  {
    match ttl
    case None => DEFAULT_TTL
    case Some(d) => if d <= MAX_TTL then d else MAX_TTL
  }

  // ----- the store, as it is implemented

  function Purged(store: Store, now: Instant): Store {
    map t | t in store && store[t].validUntil > now :: store[t]
  }

  function StoreStep(store: Store, step: Step): (Store, Reply) {
    var live := Purged(store, step.now);
    match step
    case Issue(clientId, ttl, started, _, token) =>
      var validUntil := started + EffectiveTtl(ttl);
      if |live| >= MAX_TOKENS then (live, Refused)
      else (live[token := BindEntry(clientId, validUntil)], Minted(validUntil))
    case Consume(clientId, token, _) =>
      if token !in live || live[token].clientId != clientId then (live, Rejected)
      else (live - {token}, Accepted)
  }

  // ----- the ledger, which only ever learns

  datatype LedgerEntry = LedgerEntry(clientId: string, validUntil: Instant, used: bool)

  type Ledger = map<string, LedgerEntry>

  predicate Live(ledger: Ledger, token: string, now: Instant) {
    token in ledger && !ledger[token].used && ledger[token].validUntil > now
  }

  function LiveTokens(ledger: Ledger, now: Instant): set<string> {
    set t | t in ledger && Live(ledger, t, now)
  }

  function LedgerStep(ledger: Ledger, step: Step): (Ledger, Reply) {
    match step
    case Issue(clientId, ttl, started, now, token) =>
      var validUntil := started + EffectiveTtl(ttl);
      if |LiveTokens(ledger, now)| >= MAX_TOKENS then (ledger, Refused)
      else (ledger[token := LedgerEntry(clientId, validUntil, false)], Minted(validUntil))
    case Consume(clientId, token, now) =>
      if Live(ledger, token, now) && ledger[token].clientId == clientId
      then (ledger[token := ledger[token].(used := true)], Accepted)
      else (ledger, Rejected)
  }

  // ----- one step of the store refines one step of the ledger

  /** Every stored token is an unused token of the ledger, with the same client and expiry. */
  ghost predicate Backed(store: Store, ledger: Ledger) {
    forall t :: t in store ==> t in ledger && ledger[t] == LedgerEntry(store[t].clientId, store[t].validUntil, false)
  }

  /** The store may forget used tokens, and tokens expired by `clock`, and nothing else. */
  ghost predicate Refines(store: Store, ledger: Ledger, clock: Instant) {
    && |store| <= MAX_TOKENS
    && Backed(store, ledger)
    && forall t :: Live(ledger, t, clock) ==> t in store
  }

  lemma {:induction false} SubsetIsSmaller<T>(a: set<T>, b: set<T>)
    requires a <= b
    ensures |a| <= |b|
    decreases b
  {
    if a != {} {
      var x :| x in a;
      SubsetIsSmaller(a - {x}, b - {x});
    }
  }

  /** A purge leaves exactly the live tokens of the ledger. */
  lemma PurgedIsLive(store: Store, ledger: Ledger, clock: Instant, now: Instant)
    requires Refines(store, ledger, clock) && clock <= now
    ensures Purged(store, now).Keys == LiveTokens(ledger, now)
    ensures |Purged(store, now)| == |LiveTokens(ledger, now)| <= MAX_TOKENS
    ensures Refines(Purged(store, now), ledger, now)
  {
    var live := Purged(store, now);
    SubsetIsSmaller(live.Keys, store.Keys);
    assert |live.Keys| == |live|;
  }

  lemma IssueRefines(live: Store, ledger: Ledger, now: Instant, token: string, entry: BindEntry)
    requires Refines(live, ledger, now) && token !in ledger && |live| < MAX_TOKENS
    ensures Refines(live[token := entry], ledger[token := LedgerEntry(entry.clientId, entry.validUntil, false)], now)
  {
    var live', ledger' := live[token := entry], ledger[token := LedgerEntry(entry.clientId, entry.validUntil, false)];
    assert |live'| == |live| + 1 by {
      assert token !in live;
    }
    assert Backed(live', ledger');
    assert forall t :: Live(ledger', t, now) ==> t == token || Live(ledger, t, now);
  }

  lemma AcceptRefines(live: Store, ledger: Ledger, now: Instant, token: string)
    requires Refines(live, ledger, now) && token in live
    ensures Refines(live - {token}, ledger[token := ledger[token].(used := true)], now)
  {
    SubsetIsSmaller((live - {token}).Keys, live.Keys);
  }

  /** Purging lazily and counting what is left answers as the full ledger does. */
  lemma StepRefines(store: Store, ledger: Ledger, clock: Instant, step: Step)
    requires Refines(store, ledger, clock)
    requires clock <= step.now
    requires step.Issue? ==> step.token !in ledger
    ensures StoreStep(store, step).1 == LedgerStep(ledger, step).1
    ensures Refines(StoreStep(store, step).0, LedgerStep(ledger, step).0, step.now)
  {
    PurgedIsLive(store, ledger, clock, step.now);
    var live := Purged(store, step.now);
    match step
    case Issue(clientId, ttl, started, _, token) =>
      if |live| < MAX_TOKENS {
        IssueRefines(live, ledger, step.now, token, BindEntry(clientId, started + EffectiveTtl(ttl)));
      }
    case Consume(clientId, token, _) =>
      assert token in live <==> token in LiveTokens(ledger, step.now);
      if token in live && live[token].clientId == clientId {
        AcceptRefines(live, ledger, step.now, token);
      }
  }

  /** The store object. `ledger` and `clock` are its specification. */
  class BindTokenStore {
    var store: Store
    ghost var ledger: Ledger
    ghost var clock: Instant

    ghost predicate Valid()
      reads this
    {
      Refines(store, ledger, clock)
    }

    constructor ()
      ensures Valid() && ledger == map[] && clock == 0
    {
      store := map[];
      ledger := map[];
      clock := 0;
    }

    method PurgeExpiredLocked(now: Instant)
      modifies this`store
      ensures store == Purged(old(store), now)
    {
      store := map t | t in store && store[t].validUntil > now :: store[t];
    }

    /** Mints a token exactly when fewer than the ceiling are live and unused in the ledger. */
    method Issue(clientId: string, ttl: Option<Duration>, started: Instant, now: Instant, token: string)
      returns (minted: Option<Instant>)
      requires Valid() && clock <= now && token !in ledger
      modifies this
      ensures Valid() && clock == now
      ensures minted == if |LiveTokens(old(ledger), now)| < MAX_TOKENS then Some(started + EffectiveTtl(ttl)) else None
      ensures ledger == if minted.Some? then old(ledger)[token := LedgerEntry(clientId, minted.value, false)] else old(ledger)
    {
      PurgedIsLive(store, ledger, clock, now);
      clock := now;
      var validUntil := started + EffectiveTtl(ttl);
      PurgeExpiredLocked(now);
      if |store| >= MAX_TOKENS {
        return None;
      }
      var entry := BindEntry(clientId, validUntil);
      IssueRefines(store, ledger, now, token, entry);
      store := store[token := entry];
      ledger := ledger[token := LedgerEntry(clientId, validUntil, false)];
      return Some(validUntil);
    }

    /** Accepts exactly the tokens the ledger holds for this client, unexpired and unused. */
    method Consume(clientId: string, token: string, now: Instant) returns (accepted: bool)
      requires Valid() && clock <= now
      modifies this
      ensures Valid() && clock == now
      ensures accepted <==> Live(old(ledger), token, now) && old(ledger)[token].clientId == clientId
      ensures ledger == if accepted then old(ledger)[token := old(ledger)[token].(used := true)] else old(ledger)
    {
      PurgedIsLive(store, ledger, clock, now);
      assert token in Purged(store, now) <==> token in LiveTokens(ledger, now);
      clock := now;
      PurgeExpiredLocked(now);
      if token !in store {
        return false;
      }
      if store[token].clientId != clientId {
        return false;
      }
      AcceptRefines(store, ledger, now, token);
      store := store - {token};
      ledger := ledger[token := ledger[token].(used := true)];
      return true;
    }
  }
}

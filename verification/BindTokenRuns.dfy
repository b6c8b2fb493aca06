/** What holds over every run of the bind-token store: every interleaving of mints and
    consumes, by any number of clients, under a clock that never goes back. */
module BindTokenRuns {
  import opened Prelude
  import opened BindTokens

  /** The lock orders the steps; the clock does not run backwards; a minted token is new. */
  ghost predicate ValidRun(steps: seq<Step>) {
    && (forall i, j :: 0 <= i < j < |steps| ==> steps[i].now <= steps[j].now)
    && (forall i :: 0 <= i < |steps| && steps[i].Issue? ==> steps[i].started <= steps[i].now)
    && (forall i, j :: 0 <= i < j < |steps| && steps[i].Issue? && steps[j].Issue? ==> steps[i].token != steps[j].token)
  }

  function StoreAfter(steps: seq<Step>): Store {
    if steps == [] then map[]
    else StoreStep(StoreAfter(steps[..|steps| - 1]), steps[|steps| - 1]).0
  }

  function LedgerAfter(steps: seq<Step>): Ledger {
    if steps == [] then map[]
    else LedgerStep(LedgerAfter(steps[..|steps| - 1]), steps[|steps| - 1]).0
  }

  function ClockAfter(steps: seq<Step>): Instant {
    if steps == [] then 0 else steps[|steps| - 1].now
  }

  /** What the store answers to step `i` of a run. */
  function ReplyAt(steps: seq<Step>, i: nat): Reply
    requires i < |steps|
  {
    StoreStep(StoreAfter(steps[..i]), steps[i]).1
  }

  lemma ValidPrefix(steps: seq<Step>, n: nat)
    requires ValidRun(steps) && n <= |steps|
    ensures ValidRun(steps[..n])
  {
  }

  lemma {:induction false} LedgerKnowsOnlyIssued(steps: seq<Step>, t: string)
    requires t in LedgerAfter(steps)
    ensures exists j :: 0 <= j < |steps| && steps[j].Issue? && steps[j].token == t
  {
    var last := |steps| - 1;
    if !(steps[last].Issue? && steps[last].token == t) {
      LedgerKnowsOnlyIssued(steps[..last], t);
      var j :| 0 <= j < last && steps[..last][j].Issue? && steps[..last][j].token == t;
      assert steps[j] == steps[..last][j];
    }
  }

  lemma FreshInLedger(steps: seq<Step>)
    requires steps != [] && ValidRun(steps)
    ensures steps[|steps| - 1].Issue? ==> steps[|steps| - 1].token !in LedgerAfter(steps[..|steps| - 1])
  {
    var last := |steps| - 1;
    if steps[last].Issue? && steps[last].token in LedgerAfter(steps[..last]) {
      LedgerKnowsOnlyIssued(steps[..last], steps[last].token);
    }
  }

  /** Over every run the store stays bounded and remembers all that matters of the ledger. */
  lemma {:induction false} RunRefinesLedger(steps: seq<Step>)
    requires ValidRun(steps)
    ensures Refines(StoreAfter(steps), LedgerAfter(steps), ClockAfter(steps))
    ensures |StoreAfter(steps)| <= 4096
  {
    if steps != [] {
      var last := |steps| - 1;
      ValidPrefix(steps, last);
      RunRefinesLedger(steps[..last]);
      FreshInLedger(steps);
      StepRefines(StoreAfter(steps[..last]), LedgerAfter(steps[..last]), ClockAfter(steps[..last]), steps[last]);
    }
  }

  /** Every answer of the store is the ledger's answer. */
  lemma RepliesAreTheLedgers(steps: seq<Step>, i: nat)
    requires ValidRun(steps) && i < |steps|
    ensures ReplyAt(steps, i) == LedgerStep(LedgerAfter(steps[..i]), steps[i]).1
  {
    var before := steps[..i + 1];
    ValidPrefix(steps, i + 1);
    ValidPrefix(steps, i);
    assert before[..i] == steps[..i];
    FreshInLedger(before);
    RunRefinesLedger(steps[..i]);
    StepRefines(StoreAfter(steps[..i]), LedgerAfter(steps[..i]), ClockAfter(steps[..i]), steps[i]);
  }

  // ----- the same answers, read off the history of the run alone

  ghost predicate MintsAt(steps: seq<Step>, j: nat, t: string) {
    j < |steps| && steps[j].Issue? && steps[j].token == t && ReplyAt(steps, j).Minted?
  }

  ghost predicate AcceptsAt(steps: seq<Step>, k: nat, t: string) {
    k < |steps| && steps[k].Consume? && steps[k].token == t && ReplyAt(steps, k).Accepted?
  }

  lemma ReplyInPrefix(steps: seq<Step>, n: nat, i: nat)
    requires i < n <= |steps|
    ensures ReplyAt(steps[..n], i) == ReplyAt(steps, i)
  {
    assert steps[..n][..i] == steps[..i];
  }

  /** The ledger entry of a token is determined by the step that minted it and by
      whether any step accepted it. */
  ghost predicate Recorded(steps: seq<Step>, t: string) {
    && (t in LedgerAfter(steps) <==> exists j: nat :: MintsAt(steps, j, t))
    && (forall j: nat :: MintsAt(steps, j, t) && t in LedgerAfter(steps) ==>
          && LedgerAfter(steps)[t].clientId == steps[j].clientId
          && LedgerAfter(steps)[t].validUntil == steps[j].started + EffectiveTtl(steps[j].ttl))
    && (t in LedgerAfter(steps) ==>
          (LedgerAfter(steps)[t].used <==> exists k: nat :: AcceptsAt(steps, k, t)))
  }

  lemma HistoryExtends(steps: seq<Step>, t: string)
    requires steps != []
    ensures var last := |steps| - 1;
            && (forall j: nat :: j < last ==> (MintsAt(steps, j, t) <==> MintsAt(steps[..last], j, t)))
            && (forall k: nat :: k < last ==> (AcceptsAt(steps, k, t) <==> AcceptsAt(steps[..last], k, t)))
  {
    var last := |steps| - 1;
    forall j: nat | j < last
      ensures steps[..last][j] == steps[j] && ReplyAt(steps[..last], j) == ReplyAt(steps, j)
    {
      ReplyInPrefix(steps, last, j);
    }
  }

  ghost predicate NeverAccepted(steps: seq<Step>, t: string) {
    forall k: nat :: k < |steps| ==> !AcceptsAt(steps, k, t)
  }

  lemma {:induction false} NoAcceptBeforeMint(steps: seq<Step>, t: string)
    requires ValidRun(steps) && t !in LedgerAfter(steps)
    ensures NeverAccepted(steps, t)
  {
    if steps != [] {
      var last := |steps| - 1;
      ValidPrefix(steps, last);
      assert t !in LedgerAfter(steps[..last]);
      NoAcceptBeforeMint(steps[..last], t);
      HistoryExtends(steps, t);
      RepliesAreTheLedgers(steps, last);
    }
  }

  lemma {:induction false} LedgerRecordsHistory(steps: seq<Step>, t: string)
    requires ValidRun(steps)
    ensures Recorded(steps, t)
  {
    if steps != [] {
      var last := |steps| - 1;
      var before, step := steps[..last], steps[last];
      ValidPrefix(steps, last);
      LedgerRecordsHistory(before, t);
      HistoryExtends(steps, t);
      RepliesAreTheLedgers(steps, last);
      FreshInLedger(steps);
      if step.token != t {
        assert !MintsAt(steps, last, t) && !AcceptsAt(steps, last, t);
        assert t in LedgerAfter(steps) <==> t in LedgerAfter(before);
        MovedRecord(steps, t);
      } else if step.Issue? {
        NoAcceptBeforeMint(before, t);
        RecordedMint(steps, t);
      } else {
        RecordedConsume(steps, t);
      }
    }
  }

  ghost predicate ExtensionFacts(steps: seq<Step>, t: string)
    requires steps != []
  {
    var last := |steps| - 1;
    && Recorded(steps[..last], t)
    && (forall j: nat :: j < last ==> (MintsAt(steps, j, t) <==> MintsAt(steps[..last], j, t)))
    && (forall k: nat :: k < last ==> (AcceptsAt(steps, k, t) <==> AcceptsAt(steps[..last], k, t)))
    && ReplyAt(steps, last) == LedgerStep(LedgerAfter(steps[..last]), steps[last]).1
    && (steps[last].Issue? ==> steps[last].token !in LedgerAfter(steps[..last]))
  }

  lemma MovedRecord(steps: seq<Step>, t: string)
    requires steps != [] && ExtensionFacts(steps, t) && steps[|steps| - 1].token != t
    ensures Recorded(steps, t)
  {
    var last := |steps| - 1;
    assert forall j: nat :: MintsAt(steps, j, t) <==> MintsAt(steps[..last], j, t);
    assert forall k: nat :: AcceptsAt(steps, k, t) <==> AcceptsAt(steps[..last], k, t);
    forall j: nat | MintsAt(steps, j, t)
      ensures steps[..last][j] == steps[j]
    {
    }
  }

  lemma MintedFirstHere(steps: seq<Step>, t: string)
    requires steps != [] && ExtensionFacts(steps, t)
    requires steps[|steps| - 1].Issue? && steps[|steps| - 1].token == t
    ensures forall j: nat :: MintsAt(steps, j, t) ==> j == |steps| - 1
    ensures t in LedgerAfter(steps) <==> MintsAt(steps, |steps| - 1, t)
    ensures t in LedgerAfter(steps) ==>
              var step := steps[|steps| - 1];
              LedgerAfter(steps)[t] == LedgerEntry(step.clientId, step.started + EffectiveTtl(step.ttl), false)
  {
    var last := |steps| - 1;
    assert t !in LedgerAfter(steps[..last]);
    assert forall j: nat :: j < last ==> !MintsAt(steps[..last], j, t);
  }

  lemma RecordedMint(steps: seq<Step>, t: string)
    requires steps != [] && ExtensionFacts(steps, t)
    requires steps[|steps| - 1].Issue? && steps[|steps| - 1].token == t
    requires NeverAccepted(steps[..|steps| - 1], t)
    ensures Recorded(steps, t)
  {
    var last := |steps| - 1;
    MintedFirstHere(steps, t);
    assert forall k: nat :: k < last ==> !AcceptsAt(steps[..last], k, t);
    assert NeverAccepted(steps, t);
  }

  lemma RecordedConsume(steps: seq<Step>, t: string)
    requires steps != [] && ExtensionFacts(steps, t)
    requires steps[|steps| - 1].Consume? && steps[|steps| - 1].token == t
    ensures Recorded(steps, t)
  {
    var last := |steps| - 1;
    assert forall j: nat :: MintsAt(steps, j, t) <==> MintsAt(steps[..last], j, t);
    forall j: nat | MintsAt(steps, j, t)
      ensures steps[..last][j] == steps[j]
    {
    }
    if !AcceptsAt(steps, last, t) {
      assert forall k: nat :: AcceptsAt(steps, k, t) <==> AcceptsAt(steps[..last], k, t);
    }
  }

  /** A consume succeeds exactly when an earlier step minted that token for that client,
      it has not expired, and no step in between consumed it. */
  lemma AcceptedExactlyWhen(steps: seq<Step>, i: nat)
    requires ValidRun(steps) && i < |steps| && steps[i].Consume?
    ensures ReplyAt(steps, i).Accepted? <==>
            && (exists j: nat :: j < i && MintsAt(steps, j, steps[i].token)
                                 && steps[j].clientId == steps[i].clientId
                                 && steps[i].now < steps[j].started + EffectiveTtl(steps[j].ttl))
            && (forall k: nat :: k < i ==> !AcceptsAt(steps, k, steps[i].token))
  {
    var t := steps[i].token;
    ValidPrefix(steps, i);
    LedgerRecordsHistory(steps[..i], t);
    RepliesAreTheLedgers(steps, i);
    PrefixHistory(steps, i, t);
  }

  lemma PrefixHistory(steps: seq<Step>, i: nat, t: string)
    requires i <= |steps|
    ensures forall j: nat :: j < i ==> (MintsAt(steps, j, t) <==> MintsAt(steps[..i], j, t)) && steps[..i][j] == steps[j]
    ensures forall k: nat :: k < i ==> (AcceptsAt(steps, k, t) <==> AcceptsAt(steps[..i], k, t))
  {
    forall j: nat | j < i
      ensures steps[..i][j] == steps[j] && ReplyAt(steps[..i], j) == ReplyAt(steps, j)
    {
      ReplyInPrefix(steps, i, j);
    }
  }

  /** The tokens that are live before step `i`, from the history alone. */
  ghost predicate LiveInHistory(steps: seq<Step>, i: nat, t: string)
    requires i < |steps|
  {
    && (exists j: nat :: j < i && MintsAt(steps, j, t)
                         && steps[i].now < steps[j].started + EffectiveTtl(steps[j].ttl))
    && (forall k: nat :: k < i ==> !AcceptsAt(steps, k, t))
  }

  /** A mint is refused exactly when at least the ceiling of tokens are live and unused. */
  lemma RefusedExactlyWhen(steps: seq<Step>, i: nat, live: set<string>)
    requires ValidRun(steps) && i < |steps| && steps[i].Issue?
    requires forall t :: t in live <==> LiveInHistory(steps, i, t)
    ensures ReplyAt(steps, i).Refused? <==> |live| >= 4096
  {
    ValidPrefix(steps, i);
    RepliesAreTheLedgers(steps, i);
    var ledger := LedgerAfter(steps[..i]);
    forall t
      ensures t in live <==> t in LiveTokens(ledger, steps[i].now)
    {
      LedgerRecordsHistory(steps[..i], t);
      PrefixHistory(steps, i, t);
    }
    assert live == LiveTokens(ledger, steps[i].now);
  }

  /** A token is accepted at most once. */
  lemma SingleShot(steps: seq<Step>, i: nat, k: nat, t: string)
    requires ValidRun(steps) && AcceptsAt(steps, i, t) && AcceptsAt(steps, k, t)
    ensures i == k
  {
    AcceptedExactlyWhen(steps, i);
    AcceptedExactlyWhen(steps, k);
  }

  /** An accepted token was minted, for the same client, less than the longest lifetime ago. */
  lemma AcceptedOnlyForItsClientInTime(steps: seq<Step>, i: nat, t: string) returns (j: nat)
    requires ValidRun(steps) && AcceptsAt(steps, i, t)
    ensures j < i && MintsAt(steps, j, t) && steps[j].clientId == steps[i].clientId
    ensures steps[j].started <= steps[i].now < steps[j].started + 30 * 60 * 1_000_000_000
  {
    AcceptedExactlyWhen(steps, i);
    j :| 0 <= j < i && MintsAt(steps, j, t) && steps[j].clientId == steps[i].clientId
         && steps[i].now < steps[j].started + EffectiveTtl(steps[j].ttl);
    assert steps[j].started <= steps[j].now <= steps[i].now;
  }

  // ----- failed probes leave no trace

  /** The run without the steps whose positions are in `dropped`. */
  function Without(steps: seq<Step>, dropped: set<nat>): seq<Step> {
    if steps == [] then []
    else
      var last := |steps| - 1;
      Without(steps[..last], dropped) + if last in dropped then [] else [steps[last]]
  }

  ghost predicate FailedProbes(steps: seq<Step>, dropped: set<nat>) {
    forall i :: i in dropped && i < |steps| ==> steps[i].Consume? && ReplyAt(steps, i).Rejected?
  }

  lemma {:induction false} WithoutKeepsOrder(steps: seq<Step>, dropped: set<nat>)
    requires ValidRun(steps)
    ensures ValidRun(Without(steps, dropped))
    ensures forall x :: x in Without(steps, dropped) ==> x in steps
    ensures ClockAfter(Without(steps, dropped)) <= ClockAfter(steps)
  {
    if steps != [] {
      var last := |steps| - 1;
      var rest := Without(steps[..last], dropped);
      ValidPrefix(steps, last);
      WithoutKeepsOrder(steps[..last], dropped);
      forall i | 0 <= i < |rest|
        ensures rest[i].now <= steps[last].now
        ensures rest[i].Issue? && steps[last].Issue? ==> rest[i].token != steps[last].token
      {
        assert rest[i] in steps[..last];
        var j :| 0 <= j < last && steps[..last][j] == rest[i];
        assert steps[j] == rest[i];
      }
    }
  }

  lemma {:induction false} FailedProbesLeaveLedger(steps: seq<Step>, dropped: set<nat>)
    requires ValidRun(steps) && FailedProbes(steps, dropped)
    ensures LedgerAfter(Without(steps, dropped)) == LedgerAfter(steps)
  {
    if steps != [] {
      var last := |steps| - 1;
      ValidPrefix(steps, last);
      forall i | i in dropped && i < last
        ensures steps[..last][i].Consume? && ReplyAt(steps[..last], i).Rejected?
      {
        ReplyInPrefix(steps, last, i);
      }
      FailedProbesLeaveLedger(steps[..last], dropped);
      var rest := Without(steps[..last], dropped);
      if last in dropped {
        RepliesAreTheLedgers(steps, last);
        assert Without(steps, dropped) == rest;
      } else {
        assert (rest + [steps[last]])[..|rest|] == rest;
      }
    }
  }

  /** Any number of wrong-client or unknown-token probes may be erased from a run:
      whatever step comes next gets the same answer. */
  lemma FailedProbesAreInvisible(steps: seq<Step>, dropped: set<nat>, next: Step)
    requires ValidRun(steps + [next]) && FailedProbes(steps, dropped)
    ensures StoreStep(StoreAfter(steps), next).1 == StoreStep(StoreAfter(Without(steps, dropped)), next).1
  {
    var whole := steps + [next];
    assert whole[..|steps|] == steps;
    ValidPrefix(whole, |steps|);
    FreshInLedger(whole);
    RunRefinesLedger(steps);
    StepRefines(StoreAfter(steps), LedgerAfter(steps), ClockAfter(steps), next);
    var rest := Without(steps, dropped);
    WithoutKeepsOrder(steps, dropped);
    FailedProbesLeaveLedger(steps, dropped);
    RunRefinesLedger(rest);
    StepRefines(StoreAfter(rest), LedgerAfter(rest), ClockAfter(rest), next);
  }
}

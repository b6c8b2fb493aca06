/** The process-wide RPC bearer: two initialisers feed one write-once cell, and the
    standalone one also writes the token to a file for outside clients. */
module RpcToken {
  import opened Prelude
  import opened Text

  datatype InitError = EmptyToken | WriteFailed

  /** The token file as this process leaves it; a failed write may leave any content behind. */
  datatype TokenFile = Untouched | Complete(content: string) | Torn(content: string)

  datatype WriteOutcome = Written | Failed(left: string)

  /** `generate_token`: 64 lower-case hexadecimal digits. */
  predicate IsGenerated(token: string) {
    |token| == 64 && forall i :: 0 <= i < 64 ==> '0' <= token[i] <= '9' || 'a' <= token[i] <= 'f'
  }

  lemma GeneratedIsTrimmed(token: string)
    requires IsGenerated(token)
    ensures token != "" && Trim(token) == token
  {
    TrimOfTrimmed(token);
  }

  /** The token in memory and the token file. */
  datatype Cell = Cell(token: Option<string>, file: TokenFile)

  /** What `init_rpc_token` leaves when it runs undisturbed. `env` is the operator's variable, `generated`
      the fresh token, `outcome` the write's fate. */
  function InitCell(cell: Cell, env: Option<string>, generated: string, outcome: WriteOutcome): Cell {
    if cell.token.Some? then cell
    else if env.Some? && !Blank(env.value) then cell.(token := Some(Trim(env.value)))
    else if outcome.Written? then Cell(Some(generated), Complete(generated))
    else cell.(file := Torn(outcome.left))
  }

  /** What `init_rpc_token_with_value` leaves when it runs undisturbed. */
  function HandoffCell(cell: Cell, supplied: string): Cell {
    if Blank(supplied) || cell.token.Some? then cell else cell.(token := Some(Trim(supplied)))
  }

  /** Calls that run one after another. */
  class RpcTokenCell {
    var token: Option<string>
    var file: TokenFile

    function Contents(): Cell
      reads this
    {
      Cell(token, file)
    }

    /** A set token is non-empty and trimmed, and a complete file holds the token in memory. */
    ghost predicate Valid()
      reads this
    {
      && (token.Some? ==> token.value != "" && Trim(token.value) == token.value)
      && (file.Complete? ==> token == Some(file.content))
    }

    constructor ()
      ensures Valid() && token == None && file == Untouched
    {
      token, file := None, Untouched;
    }

    method InitRpcToken(env: Option<string>, generated: string, outcome: WriteOutcome)
      returns (r: Result<(), InitError>)
      requires Valid() && IsGenerated(generated)
      modifies this
      ensures Valid()
      ensures Contents() == InitCell(old(Contents()), env, generated, outcome)
      ensures r == if old(token).None? && (env.None? || Blank(env.value)) && outcome.Failed? then Err(WriteFailed) else Ok(())
    {
      if token.Some? {
        return Ok(());
      }
      if env.Some? {
        var trimmed := Trim(env.value);
        TrimEmptyIffBlank(env.value);
        if trimmed != "" {
          var pre, post := TrimSplits(env.value);
          TrimOfTrimmed(trimmed);
          token := Some(trimmed);
          return Ok(());
        }
      }
      GeneratedIsTrimmed(generated);
      if outcome.Failed? {
        file := Torn(outcome.left);
        return Err(WriteFailed);
      }
      file := Complete(generated);
      token := Some(generated);
      return Ok(());
    }

    method InitRpcTokenWithValue(supplied: string) returns (r: Result<(), InitError>)
      requires Valid()
      modifies this
      ensures Valid()
      ensures Contents() == HandoffCell(old(Contents()), supplied)
      ensures r == if Blank(supplied) then Err(EmptyToken) else Ok(())
    {
      var trimmed := Trim(supplied);
      TrimEmptyIffBlank(supplied);
      if trimmed == "" {
        return Err(EmptyToken);
      }
      if token.Some? {
        return Ok(());
      }
      var pre, post := TrimSplits(supplied);
      TrimOfTrimmed(trimmed);
      token := Some(trimmed);
      return Ok(());
    }
  }

  // ----- calls that overlap: check, write and set are separate steps

  /** Where a call stands after its check found the cell empty. */
  datatype Phase = Checked(generated: string) | Setting(value: string, wrote: bool)

  datatype Process = Process(token: Option<string>, file: TokenFile, calls: map<nat, Phase>)

  datatype Step =
    | BeginInit(call: nat, env: Option<string>, generated: string)
    | BeginHandoff(call: nat, supplied: string)
    | Write(call: nat, outcome: WriteOutcome)
    | Set(call: nat)

  function Next(p: Process, step: Step): Process {
    match step
    case BeginInit(c, env, generated) =>
      if c in p.calls || p.token.Some? then p
      else if env.Some? && Trim(env.value) != "" then p.(calls := p.calls[c := Setting(Trim(env.value), false)])
      else p.(calls := p.calls[c := Checked(generated)])
    case BeginHandoff(c, supplied) =>
      if c in p.calls || Trim(supplied) == "" || p.token.Some? then p
      else p.(calls := p.calls[c := Setting(Trim(supplied), false)])
    case Write(c, outcome) =>
      if c !in p.calls || !p.calls[c].Checked? then p
      else if outcome.Failed? then p.(file := Torn(outcome.left), calls := p.calls - {c})
      else p.(file := Complete(p.calls[c].generated), calls := p.calls[c := Setting(p.calls[c].generated, true)])
    case Set(c) =>
      if c !in p.calls || !p.calls[c].Setting? then p
      else p.(token := if p.token.Some? then p.token else Some(p.calls[c].value), calls := p.calls - {c})
  }

  const INITIAL := Process(None, Untouched, map[])

  function After(steps: seq<Step>): Process {
    if steps == [] then INITIAL else Next(After(steps[..|steps| - 1]), steps[|steps| - 1])
  }

  ghost predicate ValidRun(steps: seq<Step>) {
    forall i :: 0 <= i < |steps| && steps[i].BeginInit? ==> IsGenerated(steps[i].generated)
  }

  predicate Good(token: string) {
    token != "" && Trim(token) == token
  }

  lemma TrimIsGood(s: string)
    requires Trim(s) != ""
    ensures Good(Trim(s))
  {
    var pre, post := TrimSplits(s);
    TrimOfTrimmed(Trim(s));
  }

  predicate GoodPhase(phase: Phase) {
    match phase
    case Checked(generated) => Good(generated)
    case Setting(value, _) => Good(value)
  }

  predicate GoodProcess(p: Process) {
    (p.token.Some? ==> Good(p.token.value)) && forall c :: c in p.calls ==> GoodPhase(p.calls[c])
  }

  lemma NextKeepsGood(p: Process, step: Step)
    requires GoodProcess(p) && (step.BeginInit? ==> IsGenerated(step.generated))
    ensures GoodProcess(Next(p, step))
  {
    if step.BeginInit? {
      GeneratedIsTrimmed(step.generated);
      if step.env.Some? && Trim(step.env.value) != "" {
        TrimIsGood(step.env.value);
      }
    } else if step.BeginHandoff? && Trim(step.supplied) != "" {
      TrimIsGood(step.supplied);
    }
  }

  /** However calls interleave, the token is non-empty and trimmed. */
  lemma {:induction false} TokenIsGood(steps: seq<Step>)
    requires ValidRun(steps)
    ensures GoodProcess(After(steps))
  {
    if steps != [] {
      var last := |steps| - 1;
      TokenIsGood(steps[..last]);
      NextKeepsGood(After(steps[..last]), steps[last]);
    }
  }

  /** However calls interleave, a token that is set once never changes. */
  lemma {:induction false} WriteOnce(steps: seq<Step>, more: seq<Step>)
    requires After(steps).token.Some?
    ensures After(steps + more).token == After(steps).token
  {
    if more == [] {
      assert steps + more == steps;
    } else {
      var all := steps + more;
      assert all[..|all| - 1] == steps + more[..|more| - 1];
      WriteOnce(steps, more[..|more| - 1]);
    }
  }

  lemma AfterAppend(steps: seq<Step>, step: Step)
    ensures After(steps + [step]) == Next(After(steps), step)
  {
    assert (steps + [step])[..|steps|] == steps;
  }

  lemma AfterTwo(steps: seq<Step>, a: Step, b: Step)
    ensures After(steps + [a, b]) == Next(Next(After(steps), a), b)
  {
    AfterAppend(steps, a);
    AfterAppend(steps + [a], b);
    assert steps + [a] + [b] == steps + [a, b];
  }

  // ----- calls that do not overlap

  /** A whole call, and its steps. */
  datatype Operation = Init(env: Option<string>, generated: string, outcome: WriteOutcome) | Handoff(supplied: string)

  function StepsOf(op: Operation, c: nat): seq<Step> {
    match op
    case Init(env, generated, outcome) => [BeginInit(c, env, generated), Write(c, outcome), Set(c)]
    case Handoff(supplied) => [BeginHandoff(c, supplied), Set(c)]
  }

  function OneByOne(ops: seq<Operation>): seq<Step> {
    if ops == [] then [] else OneByOne(ops[..|ops| - 1]) + StepsOf(ops[|ops| - 1], |ops| - 1)
  }

  function CellAfter(ops: seq<Operation>): Cell {
    if ops == [] then Cell(None, Untouched)
    else
      var before := CellAfter(ops[..|ops| - 1]);
      match ops[|ops| - 1]
      case Init(env, generated, outcome) => InitCell(before, env, generated, outcome)
      case Handoff(supplied) => HandoffCell(before, supplied)
  }

  /** Step by step, calls that run one after another do what the two methods do. */
  lemma {:induction false} OneByOneIsTheClass(ops: seq<Operation>)
    ensures After(OneByOne(ops)) == Process(CellAfter(ops).token, CellAfter(ops).file, map[])
  {
    if ops != [] {
      var last := |ops| - 1;
      var before := OneByOne(ops[..last]);
      OneByOneIsTheClass(ops[..last]);
      match ops[last]
      case Init(env, generated, outcome) =>
        AfterTwo(before, BeginInit(last, env, generated), Write(last, outcome));
        AfterAppend(before + [BeginInit(last, env, generated), Write(last, outcome)], Set(last));
        assert OneByOne(ops) == before + [BeginInit(last, env, generated), Write(last, outcome)] + [Set(last)];
        InitRuns(After(before), last, env, generated, outcome);
      case Handoff(supplied) =>
        AfterTwo(before, BeginHandoff(last, supplied), Set(last));
        HandoffRuns(After(before), last, supplied);
    }
  }

  lemma InitRuns(p: Process, c: nat, env: Option<string>, generated: string, outcome: WriteOutcome)
    requires p.calls == map[]
    ensures var cell := InitCell(Cell(p.token, p.file), env, generated, outcome);
            Next(Next(Next(p, BeginInit(c, env, generated)), Write(c, outcome)), Set(c)) == Process(cell.token, cell.file, map[])
  {
    if env.Some? {
      TrimEmptyIffBlank(env.value);
    }
  }

  lemma HandoffRuns(p: Process, c: nat, supplied: string)
    requires p.calls == map[]
    ensures var cell := HandoffCell(Cell(p.token, p.file), supplied);
            Next(Next(p, BeginHandoff(c, supplied)), Set(c)) == Process(cell.token, cell.file, map[])
  {
    TrimEmptyIffBlank(supplied);
  }

  /** No call starts before the previous one has finished. */
  ghost predicate Serial(steps: seq<Step>) {
    forall n {:trigger steps[..n]} :: 0 <= n < |steps| && (steps[n].BeginInit? || steps[n].BeginHandoff?) ==>
                                        After(steps[..n]).calls == map[]
  }

  ghost predicate InStep(p: Process) {
    && (forall c, d :: c in p.calls && d in p.calls ==> c == d)
    && (forall c :: c in p.calls ==> p.token == None)
    && (forall c :: c in p.calls && p.file.Complete? ==> p.calls[c] == Setting(p.file.content, true))
    && (p.calls == map[] && p.file.Complete? ==> p.token == Some(p.file.content))
  }

  lemma {:induction false} SerialKeepsInStep(steps: seq<Step>)
    requires Serial(steps)
    ensures InStep(After(steps))
  {
    if steps != [] {
      var last := |steps| - 1;
      forall n | 0 <= n < last && (steps[..last][n].BeginInit? || steps[..last][n].BeginHandoff?)
        ensures After(steps[..last][..n]).calls == map[]
      {
        assert steps[..last][..n] == steps[..n];
      }
      SerialKeepsInStep(steps[..last]);
      NextKeepsInStep(After(steps[..last]), steps[last]);
    }
  }

  lemma NextKeepsInStep(p: Process, step: Step)
    requires InStep(p)
    requires step.BeginInit? || step.BeginHandoff? ==> p.calls == map[]
    ensures InStep(Next(p, step))
  {
    if (step.Write? || step.Set?) && step.call in p.calls {
      assert (p.calls - {step.call}).Keys == {};
    }
  }

  /** When calls do not overlap, a file this process completed holds the token in memory. */
  lemma FileAgreesWhenSerial(steps: seq<Step>)
    requires Serial(steps) && After(steps).calls == map[] && After(steps).file.Complete?
    ensures After(steps).token == Some(After(steps).file.content)
  {
    SerialKeepsInStep(steps);
  }

  // ----- the file against the token in memory

  /** The steps that change the file. */
  predicate ChangesFile(p: Process, step: Step) {
    step.Write? && step.call in p.calls && p.calls[step.call].Checked?
  }

  /** The last step of a run that changes the file is at `w`. */
  ghost predicate LastChange(steps: seq<Step>, w: nat) {
    && w < |steps| && ChangesFile(After(steps[..w]), steps[w])
    && forall i {:trigger steps[..i]} :: w < i < |steps| ==> !ChangesFile(After(steps[..i]), steps[i])
  }

  /** At `w` call `c` wrote its token `v` completely, and nothing changed the file after that. */
  ghost predicate LastWrote(steps: seq<Step>, w: nat, c: nat, v: string) {
    LastChange(steps, w) && steps[w] == Write(c, Written) && After(steps[..w]).calls[c] == Checked(v)
  }

  /** The first step after `w` that finishes call `c` is at `s`. */
  ghost predicate FinishedAt(steps: seq<Step>, w: nat, c: nat, s: nat) {
    w < s < |steps| && steps[s] == Set(c) && forall i :: w < i < s ==> steps[i] != Set(c)
  }

  /** The last change decides the file: a token written completely, or whatever a failed write left. */
  lemma {:induction false} LastChangeDecides(steps: seq<Step>, w: nat)
    requires LastChange(steps, w)
    ensures After(steps).file == match steps[w].outcome
                                 case Written => Complete(After(steps[..w]).calls[steps[w].call].generated)
                                 case Failed(left) => Torn(left)
  {
    var last := |steps| - 1;
    if w < last {
      EarlierChange(steps, w);
      LastChangeDecides(steps[..last], w);
      assert steps[..last][..w] == steps[..w];
      assert !ChangesFile(After(steps[..last]), steps[last]);
    }
  }

  lemma EarlierChange(steps: seq<Step>, w: nat)
    requires LastChange(steps, w) && w < |steps| - 1
    ensures LastChange(steps[..|steps| - 1], w)
  {
    var init := steps[..|steps| - 1];
    forall i {:trigger init[..i]} | w <= i < |init|
      ensures init[..i] == steps[..i] && init[i] == steps[i]
    {
    }
  }

  lemma AfterPrefix(steps: seq<Step>, n: nat)
    requires 0 < n <= |steps|
    ensures After(steps[..n]) == Next(After(steps[..n - 1]), steps[n - 1])
  {
    assert steps[..n][..n - 1] == steps[..n - 1];
  }

  /** Until it is finished, the writer is about to set the token it wrote. */
  lemma {:induction false} WriterWaits(steps: seq<Step>, w: nat, c: nat, v: string, n: nat)
    requires w < n <= |steps| && steps[w] == Write(c, Written)
    requires c in After(steps[..w]).calls && After(steps[..w]).calls[c] == Checked(v)
    requires forall i :: w < i < n ==> steps[i] != Set(c)
    ensures c in After(steps[..n]).calls && After(steps[..n]).calls[c] == Setting(v, true)
  {
    AfterPrefix(steps, n);
    if w < n - 1 {
      WriterWaits(steps, w, c, v, n - 1);
    }
  }

  lemma SetDecides(steps: seq<Step>, c: nat, v: string, s: nat)
    requires s < |steps| && steps[s] == Set(c)
    requires c in After(steps[..s]).calls && After(steps[..s]).calls[c] == Setting(v, true)
    ensures After(steps).token == Some(v) <==> After(steps[..s]).token == None || After(steps[..s]).token == Some(v)
  {
    var before, rest := steps[..s], steps[s + 1..];
    SplitAt(steps, s);
    AfterAppend(before, Set(c));
    WriteOnce(before + [Set(c)], rest);
  }

  lemma SplitAt<T>(t: seq<T>, i: nat)
    requires i < |t|
    ensures t == t[..i] + [t[i]] + t[i + 1..]
  {
  }

  /** The written token is the one in memory ever after exactly when, just before its writer set it,
      the cell was still free or already held it. */
  lemma WrittenTokenPrevailsExactlyWhen(steps: seq<Step>, w: nat, c: nat, v: string, s: nat)
    requires LastWrote(steps, w, c, v) && FinishedAt(steps, w, c, s)
    ensures After(steps).file == Complete(v)
    ensures After(steps).token == Some(v) <==> After(steps[..s]).token == None || After(steps[..s]).token == Some(v)
  {
    LastChangeDecides(steps, w);
    WriterWaits(steps, w, c, v, s);
    SetDecides(steps, c, v, s);
  }

  /** Where a completely written file came from. */
  lemma {:induction false} WriterOf(steps: seq<Step>) returns (w: nat, c: nat)
    requires After(steps).file.Complete?
    ensures LastWrote(steps, w, c, After(steps).file.content)
  {
    var last := |steps| - 1;
    var before := After(steps[..last]);
    if ChangesFile(before, steps[last]) {
      w, c := last, steps[last].call;
    } else {
      var init := steps[..last];
      w, c := WriterOf(init);
      assert forall i {:trigger steps[..i]} :: w <= i < last ==> init[..i] == steps[..i];
    }
  }

  lemma FirstSet(steps: seq<Step>, w: nat, c: nat, n: nat) returns (s: nat)
    requires w < n < |steps| && steps[n] == Set(c)
    ensures FinishedAt(steps, w, c, s)
  {
    s := w + 1;
    while steps[s] != Set(c)
      invariant w < s <= n
      invariant forall i :: w < i < s ==> steps[i] != Set(c)
      decreases n - s
    {
      s := s + 1;
    }
  }

  /** After any finished run that leaves a completely written file, file and memory agree exactly when the cell was free,
      or held the same token, just before the last writer set it. */
  lemma FileAgreesExactlyWhen(steps: seq<Step>)
    requires After(steps).calls == map[] && After(steps).file.Complete?
    ensures var v := After(steps).file.content;
            exists w: nat, c: nat, s: nat ::
              && LastWrote(steps, w, c, v) && FinishedAt(steps, w, c, s)
              && (After(steps).token == Some(v) <==> After(steps[..s]).token == None || After(steps[..s]).token == Some(v))
  {
    var v := After(steps).file.content;
    var w, c := WriterOf(steps);
    assert steps[..|steps|] == steps;
    if forall i :: w < i < |steps| ==> steps[i] != Set(c) {
      WriterWaits(steps, w, c, v, |steps|);
      assert false;
    }
    var n :| w < n < |steps| && steps[n] == Set(c);
    var s := FirstSet(steps, w, c, n);
    WrittenTokenPrevailsExactlyWhen(steps, w, c, v, s);
  }

  /** An overlapping handoff leaves clients of the file with a token the process rejects. */
  lemma OverlapSplitsFileFromMemory(generated: string, handed: string)
    requires IsGenerated(generated) && Good(handed) && handed != generated
    ensures var steps := [BeginInit(0, None, generated), BeginHandoff(1, handed), Write(0, Written), Set(1), Set(0)];
            ValidRun(steps) && After(steps).calls == map[]
            && After(steps).file == Complete(generated) && After(steps).token == Some(handed)
  {
    AfterFive(BeginInit(0, None, generated), BeginHandoff(1, handed), Write(0, Written), Set(1), Set(0));
    var p1 := Next(INITIAL, BeginInit(0, None, generated));
    assert p1 == Process(None, Untouched, map[0 := Checked(generated)]);
    var p2 := Next(p1, BeginHandoff(1, handed));
    assert p2 == Process(None, Untouched, map[0 := Checked(generated)][1 := Setting(handed, false)]);
    var p3 := Next(p2, Write(0, Written));
    assert p3.token == None && p3.file == Complete(generated) && p3.calls[1] == Setting(handed, false) && p3.calls.Keys == {0, 1};
    var p4 := Next(p3, Set(1));
    assert p4.token == Some(handed) && p4.calls.Keys == {0};
  }

  lemma AfterFive(a: Step, b: Step, c: Step, d: Step, e: Step)
    ensures After([a, b, c, d, e]) == Next(Next(Next(Next(Next(INITIAL, a), b), c), d), e)
  {
    AfterTwo([], a, b);
    AfterTwo([a, b], c, d);
    AfterAppend([a, b, c, d], e);
    assert [] + [a, b] == [a, b] && [a, b] + [c, d] == [a, b, c, d] && [a, b, c, d] + [e] == [a, b, c, d, e];
  }

  /** Two writers: the one that finds its cell free is not the one that writes last. */
  lemma TwoWritersSplitFileFromMemory(first: string, second: string)
    requires IsGenerated(first) && IsGenerated(second) && first != second
    ensures var steps := [BeginInit(0, None, first), BeginInit(1, None, second), Write(0, Written), Set(0), Write(1, Written)];
            ValidRun(steps + [Set(1)]) && After(steps + [Set(1)]) == Process(Some(first), Complete(second), map[])
  {
    var steps := [BeginInit(0, None, first), BeginInit(1, None, second), Write(0, Written), Set(0), Write(1, Written)];
    AfterFive(steps[0], steps[1], steps[2], steps[3], steps[4]);
    var p1 := Next(INITIAL, steps[0]);
    assert p1 == Process(None, Untouched, map[0 := Checked(first)]);
    var p2 := Next(p1, steps[1]);
    assert p2 == Process(None, Untouched, map[0 := Checked(first), 1 := Checked(second)]);
    var p4 := Next(Next(p2, steps[2]), steps[3]);
    assert p4 == Process(Some(first), Complete(first), map[1 := Checked(second)]);
    var p5 := Next(p4, steps[4]);
    assert p5 == Process(Some(first), Complete(second), map[1 := Setting(second, true)]);
    AfterAppend(steps, Set(1));
  }

  /** A failed write that lands after a completed one spoils the file of a token that stays in use. */
  lemma TornAfterComplete(first: string, second: string, left: string)
    requires IsGenerated(first) && IsGenerated(second)
    ensures var steps := [BeginInit(0, None, first), BeginInit(1, None, second), Write(0, Written), Set(0), Write(1, Failed(left))];
            ValidRun(steps) && After(steps) == Process(Some(first), Torn(left), map[])
  {
    var steps := [BeginInit(0, None, first), BeginInit(1, None, second), Write(0, Written), Set(0), Write(1, Failed(left))];
    AfterFive(steps[0], steps[1], steps[2], steps[3], steps[4]);
    var p2 := Next(Next(INITIAL, steps[0]), steps[1]);
    assert p2 == Process(None, Untouched, map[0 := Checked(first), 1 := Checked(second)]);
    var p4 := Next(Next(p2, steps[2]), steps[3]);
    assert p4 == Process(Some(first), Complete(first), map[1 := Checked(second)]);
  }
}

/** The secure shell: a prompt loop that asks the analyser about every command,
    lets the user block one judged dangerous, and runs the others. Reading a
    line, the analyser's answer, the dialog and the subprocess are I/O; each
    input line arrives together with the answer and the dialog choice it met. */
module SecureShell {
  import opened Common
  import opened Text
  import opened Json
  import MistralAnalysis

  /** The phrases that mark a plain-text answer as dangerous. */
  const DangerPhrases: seq<string> := ["this command is dangerous", "can cause harm"]

  /** `is_dangerous_by_ai`: the danger flag and the reason to show. A dict
      counts as dangerous only when its `DANGEROUS` entry is exactly `True`
      (not merely truthy), with its `reason` or "No reason provided."; a string
      counts when it contains one of the phrases in any case, with the string
      itself as the reason; anything else is safe with reason "". */
  function IsDangerousByAi(response: Json): (r: (bool, Json))
    ensures response.JObj? ==>
      r.0 == ("DANGEROUS" in response.fields && response.fields["DANGEROUS"] == JBool(true))
    ensures response.JObj? && r.0 ==>
      r.1 == (if "reason" in response.fields then response.fields["reason"] else JStr("No reason provided."))
    ensures response.JStr? ==> r.0 == KeywordAlert(response.s, DangerPhrases)
    ensures response.JStr? && r.0 ==> r.1 == response
    ensures !r.0 ==> r.1 == JStr("")
    ensures !response.JObj? && !response.JStr? ==> !r.0
  {
    if response.JObj? then
      if Get(response.fields, "DANGEROUS", JNull) == JBool(true)
      then (true, Get(response.fields, "reason", JStr("No reason provided.")))
      else (false, JStr(""))
    else if response.JStr? && MatchesAny(Lower(response.s), DangerPhrases) then (true, response)
    else (false, JStr(""))
  }

  /** A dict whose flag is truthy but not `True` (1, "yes", ...) is safe. */
  lemma TruthyFlagIsNotDanger(fields: map<string, Json>, flag: Json)
    requires flag != JBool(true)
    ensures !IsDangerousByAi(JObj(fields["DANGEROUS" := flag])).0
  {
  }

  /** `show_block_popup`: the dialog's return value; 1 is OK, 2 is Cancel,
      and 0 means the dialog could not be shown. */
  function ShowBlockPopup(choice: int): bool {
    choice == 1
  }

  /** One line read at the prompt, with the analyser's answer and the dialog
      choice it would meet, or a Ctrl+C. */
  datatype Input = Line(raw: string, answer: Json, choice: int) | Interrupt

  /** What the loop does with one input. */
  datatype Step = Skip | Exit | Execute(command: string) | Block(command: string)

  predicate IsExitWord(command: string) {
    Lower(command) == "exit" || Lower(command) == "quit"
  }

  /** The body of the `while True` loop for one input. Blank lines and
      Ctrl+C are skipped; exit or quit in any case ends the loop; any other
      line runs iff the analyser found it safe or the user chose OK, and is
      blocked otherwise, always stripped. */
  function Decide(input: Input): (step: Step)
    ensures step == Skip <==> input.Interrupt? || Strip(input.raw) == ""
    ensures step == Exit <==> input.Line? && Strip(input.raw) != "" && IsExitWord(Strip(input.raw))
    ensures step.Execute? <==>
      && input.Line? && Strip(input.raw) != "" && !IsExitWord(Strip(input.raw))
      && (!IsDangerousByAi(input.answer).0 || input.choice == 1)
    ensures step.Block? <==>
      && input.Line? && Strip(input.raw) != "" && !IsExitWord(Strip(input.raw))
      && IsDangerousByAi(input.answer).0 && input.choice != 1
    ensures step.Execute? || step.Block? ==> step.command == Strip(input.raw)
  {
    match input
    case Interrupt => Skip
    case Line(raw, answer, choice) =>
      var command := Strip(raw);
      if command == "" then Skip
      else if IsExitWord(command) then Exit
      else if IsDangerousByAi(answer).0 && !ShowBlockPopup(choice) then Block(command)
      else Execute(command)
  }

  /** A command the analyser calls dangerous runs only when the user chose OK:
      Cancel (2) and a dialog that failed (0) both block it. */
  lemma BlockedUnlessOk(raw: string, answer: Json)
    requires Strip(raw) != "" && !IsExitWord(Strip(raw)) && IsDangerousByAi(answer).0
    ensures Decide(Line(raw, answer, 1)) == Execute(Strip(raw))
    ensures Decide(Line(raw, answer, 2)) == Block(Strip(raw))
    ensures Decide(Line(raw, answer, 0)) == Block(Strip(raw))
  {
  }

  /** The commands a series of steps runs, in order, and whether it ended with
      exit: the loop stops at the first exit. */
  function Outcome(steps: seq<Step>): (seq<string>, bool)
    decreases |steps|
  {
    if steps == [] then ([], false)
    else
      match steps[0]
      case Exit => ([], true)
      case Execute(c) => var rest := Outcome(steps[1..]); ([c] + rest.0, rest.1)
      case Skip => Outcome(steps[1..])
      case Block(_) => Outcome(steps[1..])
  }

  /** What the loop does with each input, regardless of exit. */
  function Steps(inputs: seq<Input>): (steps: seq<Step>)
    ensures |steps| == |inputs|
  {
    if inputs == [] then [] else [Decide(inputs[0])] + Steps(inputs[1..])
  }

  lemma {:induction false} StepsAt(inputs: seq<Input>, i: int)
    requires 0 <= i < |inputs|
    ensures Steps(inputs)[i] == Decide(inputs[i])
    decreases |inputs|
  {
    if i > 0 {
      StepsAt(inputs[1..], i - 1);
    }
  }

  /** A session: what the loop does with each input, up to the first exit. */
  function Session(inputs: seq<Input>): (seq<string>, bool) {
    Outcome(Steps(inputs))
  }

  /** One step of `Outcome`, from position `i` on. */
  lemma OutcomeAt(steps: seq<Step>, i: int)
    requires 0 <= i < |steps|
    ensures steps[i] == Exit ==> Outcome(steps[i..]) == ([], true)
    ensures steps[i].Execute? ==>
      Outcome(steps[i..]) == ([steps[i].command] + Outcome(steps[i + 1..]).0, Outcome(steps[i + 1..]).1)
    ensures steps[i].Skip? || steps[i].Block? ==> Outcome(steps[i..]) == Outcome(steps[i + 1..])
  {
    assert steps[i..][0] == steps[i];
    assert steps[i..][1..] == steps[i + 1..];
  }

  /** The loop body for the `i`-th input line: the step it takes is the
      `i`-th step of the session. */
  method HandleAt(inputs: seq<Input>, i: nat) returns (step: Step)
    requires i < |inputs|
    ensures step == Steps(inputs)[i]
  {
    StepsAt(inputs, i);
    step := Decide(inputs[i]);
  }

  /** `shell_loop` over a finite series of inputs: returns the commands handed
      to `execute_command`, in order, and whether exit ended it. */
  method ShellLoop(inputs: seq<Input>) returns (executed: seq<string>, exited: bool)
    ensures (executed, exited) == Session(inputs)
  {
    executed := [];
    exited := false;
    ghost var steps := Steps(inputs);
    var i := 0;
    assert steps[0..] == steps;
    assert executed + Outcome(steps).0 == Outcome(steps).0;
    while i < |inputs|
      invariant 0 <= i <= |inputs|
      invariant HandedOn(steps, i, executed)
    {
      SessionStep(steps, i, executed);
      var step := HandleAt(inputs, i);
      match step {
        case Exit =>
          exited := true;
          return;
        case Execute(command) =>
          executed := executed + [command];
        case Skip =>
        case Block(_) =>
      }
      i := i + 1;
    }
    assert steps[i..] == [];
    assert executed + Outcome(steps[i..]).0 == executed;
  }

  /** After the first `i` steps the loop has handed on `executed`, and the rest
      of the session is what the remaining steps give. */
  ghost predicate HandedOn(steps: seq<Step>, i: int, executed: seq<string>)
    requires 0 <= i <= |steps|
  {
    Outcome(steps) == (executed + Outcome(steps[i..]).0, Outcome(steps[i..]).1)
  }

  /** What the loop has handed on after one more input: all of the session
      on exit, one command more on execute, the same otherwise. */
  lemma SessionStep(steps: seq<Step>, i: int, executed: seq<string>)
    requires 0 <= i < |steps|
    requires HandedOn(steps, i, executed)
    ensures steps[i] == Exit ==> Outcome(steps) == (executed, true)
    ensures steps[i].Execute? ==> HandedOn(steps, i + 1, executed + [steps[i].command])
    ensures steps[i].Skip? || steps[i].Block? ==> HandedOn(steps, i + 1, executed)
  {
    var rest, next := steps[i..], steps[i + 1..];
    assert rest[0] == steps[i] && rest[1..] == next;
    match steps[i]
    case Exit =>
      assert Outcome(rest) == ([], true);
      assert executed + [] == executed;
    case Execute(c) =>
      var after := Outcome(next);
      assert Outcome(rest) == ([c] + after.0, after.1);
      assert executed + ([c] + after.0) == (executed + [c]) + after.0;
    case Skip =>
      assert Outcome(rest) == Outcome(next);
    case Block(_) =>
      assert Outcome(rest) == Outcome(next);
  }

  /** A dangerous command the user cancels never runs. */
  lemma CancelledNeverRuns(raw: string, answer: Json, choice: int)
    requires IsDangerousByAi(answer).0 && choice != 1
    ensures !Decide(Line(raw, answer, choice)).Execute?
  {
  }

  /** Every command a series of steps runs is one of its `Execute` steps. */
  lemma {:induction false} OutcomeRunsOnlyExecuted(steps: seq<Step>, k: int)
    requires 0 <= k < |Outcome(steps).0|
    ensures exists i :: 0 <= i < |steps| && steps[i] == Execute(Outcome(steps).0[k])
    decreases |steps|
  {
    if steps[0].Execute? && k == 0 {
      assert steps[0] == Execute(Outcome(steps).0[k]);
    } else {
      var k' := if steps[0].Execute? then k - 1 else k;
      assert Outcome(steps).0[k] == Outcome(steps[1..]).0[k'];
      OutcomeRunsOnlyExecuted(steps[1..], k');
      var i :| 0 <= i < |steps[1..]| && steps[1..][i] == Execute(Outcome(steps[1..]).0[k']);
      assert steps[i + 1] == steps[1..][i];
    }
  }

  /** Every command a session runs is a stripped, non-blank, non-exit line the
      analyser passed or the user allowed. */
  lemma SessionRunsOnlyApproved(inputs: seq<Input>, k: int)
    requires 0 <= k < |Session(inputs).0|
    ensures exists i :: 0 <= i < |inputs| && Decide(inputs[i]) == Execute(Session(inputs).0[k])
  {
    OutcomeRunsOnlyExecuted(Steps(inputs), k);
    var i :| 0 <= i < |inputs| && Steps(inputs)[i] == Execute(Session(inputs).0[k]);
    StepsAt(inputs, i);
  }

  /** Nothing after an exit step runs, and the session is over. */
  lemma {:induction false} NothingAfterExit(before: seq<Step>, after: seq<Step>)
    requires !Outcome(before).1
    ensures Outcome(before + [Exit] + after) == (Outcome(before).0, true)
    decreases |before|
  {
    if before == [] {
      assert (before + [Exit] + after)[0] == Exit;
    } else {
      assert (before + [Exit] + after)[0] == before[0];
      assert (before + [Exit] + after)[1..] == before[1..] + [Exit] + after;
      NothingAfterExit(before[1..], after);
    }
  }

  lemma {:induction false} StepsConcat(a: seq<Input>, b: seq<Input>)
    ensures Steps(a + b) == Steps(a) + Steps(b)
    decreases |a|
  {
    if a == [] {
      assert a + b == b;
    } else {
      assert (a + b)[1..] == a[1..] + b;
      StepsConcat(a[1..], b);
    }
  }

  /** Nothing typed after exit runs: the inputs after the first exit line do
      not change the session. */
  lemma SessionEndsAtExit(before: seq<Input>, x: Input, after: seq<Input>)
    requires !Session(before).1 && Decide(x) == Exit
    ensures Session(before + [x] + after) == (Session(before).0, true)
  {
    StepsConcat(before, [x]);
    StepsConcat(before + [x], after);
    assert Steps([x]) == [Exit];
    NothingAfterExit(Steps(before), Steps(after));
  }

  /** The shell fails open: when the analyser call raises, `analyze_text` says
      safe and the command runs without a dialog. */
  lemma FailsOpen(raw: string, loads: string -> Loaded, choice: int)
    requires Strip(raw) != "" && !IsExitWord(Strip(raw))
    ensures Decide(Line(raw, MistralAnalysis.AnalyzeText(MistralAnalysis.ChatRaised, loads), choice)) == Execute(Strip(raw))
  {
  }
}

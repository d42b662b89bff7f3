/** The key-event state machine both keyboard monitors run on their text buffer:
    enter flushes the stripped buffer, backspace drops the last character, ctrl+v
    pastes the clipboard, and any other one-character key name is typed.
    The keyboard hook, the ctrl-key query and the clipboard are I/O: their
    answers are parameters. */
module Keys {
  import opened Common
  import opened Text

  /** A hook event: `event.event_type` and `event.name`. */
  datatype KeyEvent = KeyEvent(eventType: string, name: string)

  /** What one key does to the buffer. */
  datatype Action =
    | Submit              // "enter"
    | DropLast            // "backspace"
    | Append(text: string) // a typed character or the pasted clipboard
    | Ignore              // any other key, or a paste whose clipboard read raised

  /** The `if/elif` chain of both handlers. `clipboard` is what `pyperclip.paste()`
      returned, `None` when it raised. Only enter submits; only one-character
      names and pastes add text, and multi-character names such as "shift" or
      "space" change nothing. */
  function Dispatch(name: string, ctrlDown: bool, clipboard: Option<string>): (a: Action)
    ensures a.Submit? <==> name == "enter"
    ensures a.DropLast? <==> name == "backspace"
    ensures a.Append? ==>
              (name == "v" && ctrlDown && clipboard == Some(a.text)) || (|name| == 1 && a.text == name)
    ensures name == "v" && ctrlDown ==>
              a == (if clipboard.Some? then Append(clipboard.value) else Ignore)
    ensures |name| == 1 && !(name == "v" && ctrlDown) ==> a == Append(name)
    ensures |name| > 1 && name != "enter" && name != "backspace" ==> a == Ignore
  {
    if name == "enter" then Submit
    else if name == "backspace" then DropLast
    else if name == "v" && ctrlDown then (if clipboard.Some? then Append(clipboard.value) else Ignore)
    else if |name| == 1 then Append(name)
    else Ignore
  }

  /** The effect of one action on the buffer: the new buffer and the command
      handed on. Only enter hands anything on: the stripped buffer, and only
      when it is not all whitespace, so a handed-on command is never empty and
      never starts or ends with whitespace; the buffer is then empty. Backspace
      keeps all but the last character, and text is added at the end. */
  function Apply(buffer: string, a: Action): (r: (string, Option<string>))
    ensures r.1.Some? ==> a.Submit?
    ensures a.Submit? ==> r.0 == ""
    ensures a.Submit? ==> (r.1.None? <==> AllSpace(buffer))
    ensures a.Submit? && r.1.Some? ==>
      && r.1.value == Strip(buffer) && r.1.value != ""
      && !IsSpace(r.1.value[0]) && !IsSpace(r.1.value[|r.1.value| - 1])
    ensures a.DropLast? ==> r.0 <= buffer && |r.0| == if buffer == "" then 0 else |buffer| - 1
    ensures a.Append? ==> r.0 == buffer + a.text
    ensures a.Ignore? ==> r.0 == buffer
  {
    match a
    case Submit =>
      StripEmptyIff(buffer);
      ("", if Strip(buffer) == "" then None else Some(Strip(buffer)))
    case DropLast => (if buffer == "" then "" else buffer[..|buffer| - 1], None)
    case Append(t) => (buffer + t, None)
    case Ignore => (buffer, None)
  }

  /** Running a series of actions from a buffer: the final buffer and every
      command handed on, in order. */
  function Run(buffer: string, actions: seq<Action>): (string, seq<string>) {
    RunWith(Apply, buffer, actions)
  }

  /** Running a series of actions with the step function `step`, which gives
      the new buffer and the command handed on, if any. */
  function RunWith(step: (string, Action) -> (string, Option<string>), buffer: string, actions: seq<Action>): (string, seq<string>)
    decreases |actions|
  {
    if actions == [] then (buffer, [])
    else
      var first := step(buffer, actions[0]);
      var rest := RunWith(step, first.0, actions[1..]);
      (rest.0, Emitted(first.1) + rest.1)
  }

  /** The command an action hands on, as a list of zero or one. */
  function Emitted(cmd: Option<string>): seq<string> {
    if cmd.Some? then [cmd.value] else []
  }

  /** The buffer content an enter-free run leaves: appends add, backspaces drop
      one character, everything else keeps. */
  function Edited(buffer: string, actions: seq<Action>): string
    decreases |actions|
  {
    if actions == [] then buffer
    else Edited(Apply(buffer, actions[0]).0, actions[1..])
  }

  predicate NoSubmit(actions: seq<Action>) {
    forall i :: 0 <= i < |actions| ==> !actions[i].Submit?
  }

  /** Without enter nothing is ever handed on, however much is pasted or typed:
      paste never flushes. */
  lemma {:induction false} NoSubmitNoCommand(buffer: string, actions: seq<Action>)
    requires NoSubmit(actions)
    ensures Run(buffer, actions) == (Edited(buffer, actions), [])
    decreases |actions|
  {
    if actions != [] {
      assert !actions[0].Submit?;
      assert NoSubmit(actions[1..]) by {
        forall i | 0 <= i < |actions[1..]| ensures !actions[1..][i].Submit? {
          assert actions[1..][i] == actions[i + 1];
        }
      }
      var step := Apply(buffer, actions[0]);
      assert step.1 == None;
      NoSubmitNoCommand(step.0, actions[1..]);
      assert Run(buffer, actions) == (Run(step.0, actions[1..]).0, [] + Run(step.0, actions[1..]).1);
      assert Edited(buffer, actions) == Edited(step.0, actions[1..]);
      assert Run(step.0, actions[1..]).1 == [];
      assert Run(buffer, actions).1 == [];
      assert Run(buffer, actions).0 == Edited(buffer, actions);
    }
  }

  /** Text typed or pasted piece by piece ends up in the buffer in order. */
  function Appends(pieces: seq<string>): seq<Action> {
    seq(|pieces|, i requires 0 <= i < |pieces| => Append(pieces[i]))
  }

  function Concat(pieces: seq<string>): string {
    if pieces == [] then "" else pieces[0] + Concat(pieces[1..])
  }

  lemma {:induction false} AppendsConcatenate(buffer: string, pieces: seq<string>)
    ensures Edited(buffer, Appends(pieces)) == buffer + Concat(pieces)
    decreases |pieces|
  {
    if pieces != [] {
      assert Appends(pieces)[1..] == Appends(pieces[1..]);
      AppendsConcatenate(buffer + pieces[0], pieces[1..]);
      assert buffer + pieces[0] + Concat(pieces[1..]) == buffer + Concat(pieces);
    }
  }

  /** Typing (or pasting) pieces and then pressing enter hands on exactly the
      stripped concatenation, or nothing when that is empty, and leaves the
      buffer empty. */
  lemma TypedThenEnter(buffer: string, pieces: seq<string>)
    ensures Run(buffer, Appends(pieces) + [Submit]) ==
      ("", var s := Strip(buffer + Concat(pieces)); if s == "" then [] else [s])
  {
    var typed := Appends(pieces);
    var b := buffer + Concat(pieces);
    AppendsConcatenate(buffer, pieces);
    assert NoSubmit(typed);
    NoSubmitNoCommand(buffer, typed);
    assert Run(buffer, typed) == (b, []);
    RunSplit(buffer, typed, [Submit]);
    var r := Run(buffer, typed + [Submit]);
    assert r == (Run(b, [Submit]).0, [] + Run(b, [Submit]).1);
    SubmitAlone(b);
    assert r.0 == "";
    assert r.1 == Run(b, [Submit]).1;
  }

  /** Enter on its own hands on the stripped buffer, or nothing when it is empty. */
  lemma SubmitAlone(b: string)
    ensures Run(b, [Submit]) == ("", var s := Strip(b); if s == "" then [] else [s])
  {
    var step := Apply(b, Submit);
    assert [Submit][1..] == [];
    assert Run(b, [Submit]) == (Run(step.0, []).0, Emitted(step.1) + Run(step.0, []).1);
    assert step.0 == "";
    assert Run(step.0, []) == ("", []);
    assert Emitted(step.1) + [] == Emitted(step.1);
    if Strip(b) == "" {
      assert step.1 == None;
    } else {
      assert step.1 == Some(Strip(b));
    }
  }

  /** A run can be cut in two: the second part starts from the buffer the first
      one leaves. */
  lemma RunSplit(buffer: string, a: seq<Action>, b: seq<Action>)
    ensures Run(buffer, a + b) ==
      (Run(Run(buffer, a).0, b).0, Run(buffer, a).1 + Run(Run(buffer, a).0, b).1)
  {
    RunWithSplit(Apply, buffer, a, b);
  }

  /** The same for any step function. */
  lemma {:induction false} RunWithSplit(step: (string, Action) -> (string, Option<string>),
                                        buffer: string, a: seq<Action>, b: seq<Action>)
    ensures var first := RunWith(step, buffer, a);
      RunWith(step, buffer, a + b) ==
        (RunWith(step, first.0, b).0, first.1 + RunWith(step, first.0, b).1)
    decreases |a|
  {
    if a == [] {
      assert a + b == b;
      assert RunWith(step, buffer, a) == (buffer, []);
      assert [] + RunWith(step, buffer, b).1 == RunWith(step, buffer, b).1;
    } else {
      var s := step(buffer, a[0]);
      assert (a + b)[0] == a[0] && (a + b)[1..] == a[1..] + b;
      RunWithSplit(step, s.0, a[1..], b);
      var mid := RunWith(step, s.0, a[1..]);
      var last := RunWith(step, mid.0, b);
      assert Emitted(s.1) + (mid.1 + last.1) == (Emitted(s.1) + mid.1) + last.1;
    }
  }

  /** Backspace undoes one typed character. */
  lemma BackspaceUndoesChar(buffer: string, c: char)
    ensures Apply(Apply(buffer, Append([c])).0, DropLast) == (buffer, None)
  {
    var typed := buffer + [c];
    assert typed != "" && typed[..|typed| - 1] == buffer;
  }
}

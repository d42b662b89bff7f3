/** The command-window keyboard monitor: a global hook that rebuilds what is
    typed into a console (or Windows Terminal) window in `cmd_buffer` and, on
    enter, asks the analyser about the command and lets the user block it.
    The foreground-window lookup, `keyboard.is_pressed("ctrl")`, the clipboard,
    the analyser and the message box are I/O and arrive as parameters. */
module CmdMonitor {
  import opened Common
  import opened Text
  import opened Keys

  const ConsoleClass: string := "ConsoleWindowClass"
  const TerminalClass: string := "CASCADIA_HOSTING_WINDOW_CLASS"

  /** An event reaches `cmd_buffer` when it is a key-down and the foreground
      window is a console or Windows Terminal (`None` when there is none). */
  predicate Routed(event: KeyEvent, focus: Option<string>) {
    (focus == Some(ConsoleClass) || focus == Some(TerminalClass)) && event.eventType == "down"
  }

  /** Key-ups, and key-downs in any other window (or with no foreground window),
      never reach the buffer; key-downs in either console window always do. */
  lemma RoutedCases(event: KeyEvent, focus: Option<string>)
    ensures event.eventType != "down" ==> !Routed(event, focus)
    ensures focus.None? ==> !Routed(event, focus)
    ensures event.eventType == "down" && focus.Some? ==>
              (Routed(event, focus) <==> focus.value in {ConsoleClass, TerminalClass})
  {
  }

  /** The module-level `cmd_buffer`. */
  class CmdHook {
    var buffer: string

    constructor ()
      ensures buffer == ""
    {
      buffer := "";
    }

    /** `_on_key`: returns the command handed to `_analyze_and_prompt`, if any.
        `ctrlDown` is what `keyboard.is_pressed("ctrl")` answers and `clipboard`
        what `pyperclip.paste()` returned (`None` when it raised). */
    method OnKey(event: KeyEvent, focus: Option<string>, ctrlDown: bool, clipboard: Option<string>)
      returns (command: Option<string>)
      modifies this
      ensures !Routed(event, focus) ==> buffer == old(buffer) && command == None
      ensures Routed(event, focus) ==>
                (buffer, command) == Apply(old(buffer), Dispatch(event.name, ctrlDown, clipboard))
    {
      command := None;
      if focus == Some(ConsoleClass) || focus == Some(TerminalClass) {
        if event.eventType == "down" {
          if event.name == "enter" {
            var cmd := Strip(buffer);
            buffer := "";
            if cmd != "" {
              command := Some(cmd);
            }
          } else if event.name == "backspace" {
            buffer := if buffer == "" then "" else buffer[..|buffer| - 1];
          } else if event.name == "v" && ctrlDown {
            if clipboard.Some? {
              buffer := buffer + clipboard.value;
            }
          } else if |event.name| == 1 {
            buffer := buffer + event.name;
          }
        }
      }
    }
  }

  /** Enter with focus on a console hands on the stripped buffer exactly when it
      is not blank, and always empties the buffer. */
  lemma EnterFlushes(buffer: string, focus: Option<string>, ctrlDown: bool, clipboard: Option<string>)
    requires Routed(KeyEvent("down", "enter"), focus)
    ensures Apply(buffer, Dispatch("enter", ctrlDown, clipboard)).0 == ""
    ensures Apply(buffer, Dispatch("enter", ctrlDown, clipboard)).1.None? <==> AllSpace(buffer)
    ensures Apply(buffer, Dispatch("enter", ctrlDown, clipboard)).1.Some? ==>
              Apply(buffer, Dispatch("enter", ctrlDown, clipboard)).1.value == Strip(buffer)
  {
  }

  /** Ctrl+V appends the whole clipboard without flushing, and a failed read
      leaves the buffer as it was. */
  lemma PasteAppends(buffer: string, clipboard: Option<string>)
    ensures Apply(buffer, Dispatch("v", true, clipboard)) ==
              (if clipboard.Some? then buffer + clipboard.value else buffer, None)
  {
  }

  /** Backspace removes the last character and does nothing on an empty buffer. */
  lemma BackspaceDrops(buffer: string, ctrlDown: bool, clipboard: Option<string>)
    ensures Apply(buffer, Dispatch("backspace", ctrlDown, clipboard)).1 == None
    ensures buffer == "" ==> Apply(buffer, Dispatch("backspace", ctrlDown, clipboard)).0 == ""
    ensures buffer != "" ==> Apply(buffer, Dispatch("backspace", ctrlDown, clipboard)).0 + [buffer[|buffer| - 1]] == buffer
  {
  }

  const CmdWords: seq<string> := ["danger", "delete", "harm", "unstable", "risk", "breach"]

  /** The text sent to the analyser for a command. */
  function CmdPrompt(command: string): (r: string)
    ensures |r| == |command| + 5 && r[5..] == command
  {
    "CMD: " + command
  }

  /** The question shown in the warning dialog quotes the command and the
      analyser's answer verbatim. */
  function DialogText(command: string, answer: string): (r: string)
    ensures |r| == |command| + |answer| + 46
    ensures r[29..29 + |command|] == command
    ensures r[35 + |command|..35 + |command| + |answer|] == answer
  {
    "Dangerous Command Detected:\n\n" + command + "\n\nAI: " + answer + "\n\nContinue?"
  }

  /** How `_analyze_and_prompt` ends. Blocking only logs: the console has
      already received the command when enter reached the hook. */
  datatype CmdVerdict = AiFailed | Safe | Blocked | Allowed

  /** `_analyze_and_prompt`: `answer` is the analyser's text (`None` when it
      raised) and `dialog` the message-box button (2 is Cancel), consulted only
      when the dialog is shown. */
  function AnalyzeAndPrompt(answer: Option<string>, dialog: int): (v: CmdVerdict)
    ensures v == AiFailed <==> answer.None?
    ensures v == Safe <==> answer.Some? && !KeywordAlert(answer.value, CmdWords)
    ensures v == Blocked <==> answer.Some? && KeywordAlert(answer.value, CmdWords) && dialog == 2
    ensures v == Allowed <==> answer.Some? && KeywordAlert(answer.value, CmdWords) && dialog != 2
  {
    if answer.None? then AiFailed
    else if !KeywordAlert(answer.value, CmdWords) then Safe
    else if dialog == 2 then Blocked
    else Allowed
  }

  /** The keyword test ignores case: an answer saying "DANGER" flags the command. */
  lemma ShoutedAnswerFlags(before: string, after: string, dialog: int)
    ensures AnalyzeAndPrompt(Some(before + "DANGER" + after), dialog) in {Blocked, Allowed}
  {
    var a := before + "DANGER" + after;
    LowerConcat(before + "DANGER", after);
    LowerConcat(before, "DANGER");
    assert Lower("DANGER") == "danger";
    assert OccursAt("danger", Lower(a), |before|);
  }
}

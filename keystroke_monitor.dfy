/** The general keystroke monitor: a second global hook that rebuilds what is
    typed into every window except the classic console in `buffer` and sends
    each entered line to the analyser on a daemon thread.

    As written, `handle_key` calls `flush_buffer` while it already holds the
    non-reentrant `buffer_lock`, so the hook thread blocks for good on the
    first enter outside a console. The model gives the sequential effect the
    code evidently means: the buffer is read, stripped and cleared once. */
module KeystrokeMonitor {
  import opened Common
  import opened Text
  import opened Keys
  import CmdMonitor

  /** `handle_key` returns early on key-ups and while a classic console has the
      focus. A failed window lookup gives `None`, which is not the console. */
  predicate Accepted(event: KeyEvent, focus: Option<string>) {
    event.eventType == "down" && focus != Some(CmdMonitor.ConsoleClass)
  }

  /** The module-level `buffer`. */
  class KeystrokeBuffer {
    var buffer: string

    constructor ()
      ensures buffer == ""
    {
      buffer := "";
    }

    /** `flush_buffer`: hands back the stripped buffer and empties it. */
    method FlushBuffer() returns (content: string)
      modifies this
      ensures content == Strip(old(buffer)) && buffer == ""
    {
      content := Strip(buffer);
      buffer := "";
    }

    /** `handle_key`: returns the content handed to `analyze_input_async`, if
        any. `ctrlDown` and `clipboard` are as for the console hook. */
    method HandleKey(event: KeyEvent, focus: Option<string>, ctrlDown: bool, clipboard: Option<string>)
      returns (analysis: Option<string>)
      modifies this
      ensures !Accepted(event, focus) ==> buffer == old(buffer) && analysis == None
      ensures Accepted(event, focus) ==>
                (buffer, analysis) == Apply(old(buffer), Dispatch(event.name, ctrlDown, clipboard))
    {
      analysis := None;
      if event.eventType != "down" {
        return;
      }
      if focus == Some(CmdMonitor.ConsoleClass) {
        return;
      }
      var key := event.name;
      if key == "enter" {
        var content := FlushBuffer();
        if content != "" {
          analysis := Some(content);
        }
      } else if key == "backspace" {
        buffer := if buffer == "" then "" else buffer[..|buffer| - 1];
      } else if key == "v" && ctrlDown {
        if clipboard.Some? {
          buffer := buffer + clipboard.value;
        }
      } else if |key| == 1 {
        buffer := buffer + key;
      }
    }
  }

  /** The source label the handler passes for every analysis. */
  const Source: string := "NON-CMD_WINDOW"

  const KeystrokeWords: seq<string> := ["danger", "risky", "harm", "breach", "unauthorized"]

  /** The text sent to the analyser: the source, a colon and a space, the content. */
  function InputPrompt(source: string, content: string): (r: string)
    ensures |r| == |source| + 2 + |content|
    ensures r[..|source|] == source && r[|source| + 2..] == content
  {
    source + ": " + content
  }

  /** `analyze_input_async`: the popup is shown iff the analyser answered and
      its lowered answer contains one of the words; an exception (`None`) is
      only logged. */
  function InputAlert(answer: Option<string>): (alert: bool)
    ensures alert <==> answer.Some? && exists i :: 0 <= i < |KeystrokeWords| && Occurs(KeystrokeWords[i], Lower(answer.value))
  {
    answer.Some? && KeywordAlert(answer.value, KeystrokeWords)
  }

  /** Keystrokes in Windows Terminal reach both buffers: its class is not the
      classic console's, and the console hook listens to it too. */
  lemma TerminalReachesBothHooks(event: KeyEvent)
    requires event.eventType == "down"
    ensures Accepted(event, Some(CmdMonitor.TerminalClass))
    ensures CmdMonitor.Routed(event, Some(CmdMonitor.TerminalClass))
  {
  }

  /** Every key-down reaches at least one of the two buffers, and only
      Windows Terminal key-downs reach both. */
  lemma EveryKeyDownIsRecorded(event: KeyEvent, focus: Option<string>)
    requires event.eventType == "down"
    ensures Accepted(event, focus) || CmdMonitor.Routed(event, focus)
    ensures Accepted(event, focus) && CmdMonitor.Routed(event, focus) <==> focus == Some(CmdMonitor.TerminalClass)
  {
  }
}

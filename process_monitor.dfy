/** The process monitor: for every process-creation event it records the
    command line, the executable's SHA-256 and the parent's name, asks the
    analyser about the new process at once, and watches it on a second thread
    to ask again when it exits within five seconds. WMI, psutil, the file read,
    SHA-256 and the clock are I/O: their answers are parameters, and times are
    integer milliseconds. */
module ProcessMonitor {
  import opened Common
  import opened Text

  /** The sentinel stored when no hash could be computed. */
  const Unavailable: string := "N/A"

  /** The characters `hexdigest()` writes. */
  predicate IsHexDigit(c: char) {
    '0' <= c <= '9' || 'a' <= c <= 'f'
  }

  predicate IsHexText(s: string) {
    |s| % 2 == 0 && forall i :: 0 <= i < |s| ==> IsHexDigit(s[i])
  }

  /** The value of one hex digit. */
  function HexValue(c: char): (v: nat)
    requires IsHexDigit(c)
    ensures v < 16
  {
    if c <= '9' then c as int - '0' as int else c as int - 'a' as int + 10
  }

  /** The lowercase hex digit of a value below 16. */
  function HexDigit(v: nat): (c: char)
    requires v < 16
    ensures IsHexDigit(c) && HexValue(c) == v
  {
    if v < 10 then ('0' as int + v) as char else ('a' as int + v - 10) as char
  }

  /** `hexdigest()`: each byte as two lowercase hex digits, high half first. */
  function Hexdigest(digest: seq<byte>): (r: string)
    ensures |r| == 2 * |digest|
    ensures IsHexText(r)
  {
    if digest == [] then ""
    else [HexDigit(digest[0] / 16), HexDigit(digest[0] % 16)] + Hexdigest(digest[1..])
  }

  /** Reading a hex text back as bytes, two digits per byte. */
  function Unhex(s: string): seq<byte>
    requires IsHexText(s)
    decreases |s|
  {
    if s == [] then []
    else
      assert IsHexText(s[2..]) by {
        forall i | 0 <= i < |s[2..]| ensures IsHexDigit(s[2..][i]) {
          assert s[2..][i] == s[i + 2];
        }
      }
      [16 * HexValue(s[0]) + HexValue(s[1])] + Unhex(s[2..])
  }

  /** The digest text reads back as the digest: it says which bytes, not only
      how many. */
  lemma {:induction false} HexdigestRoundTrip(digest: seq<byte>)
    ensures Unhex(Hexdigest(digest)) == digest
    decreases |digest|
  {
    if digest != [] {
      var b := digest[0];
      var s := Hexdigest(digest);
      assert s[..2] == [HexDigit(b / 16), HexDigit(b % 16)];
      assert s[2..] == Hexdigest(digest[1..]);
      HexdigestRoundTrip(digest[1..]);
      assert 16 * HexValue(s[0]) + HexValue(s[1]) == b;
      assert [b] + digest[1..] == digest;
    }
  }

  /** Different digests never print alike. */
  lemma HexdigestInjective(a: seq<byte>, b: seq<byte>)
    requires Hexdigest(a) == Hexdigest(b)
    ensures a == b
  {
    HexdigestRoundTrip(a);
    HexdigestRoundTrip(b);
  }

  /** A hex digest is never mistaken for the sentinel. */
  lemma HexdigestIsNotSentinel(digest: seq<byte>)
    ensures Hexdigest(digest) != Unavailable
  {
    assert |Unavailable| == 3;
  }

  /** What `_compute_sha256` returns: the hex digest of the file, or the
      sentinel when opening or reading it raised (`file` is `None`). */
  function Sha256Field(file: Option<seq<byte>>, sha: seq<byte> -> seq<byte>): (r: string)
    ensures r == Unavailable <==> file.None?
    ensures file.Some? ==> IsHexText(r) && Unhex(r) == sha(file.value)
  {
    if file.None? then Unavailable
    else
      HexdigestIsNotSentinel(sha(file.value));
      HexdigestRoundTrip(sha(file.value));
      Hexdigest(sha(file.value))
  }

  /** `_compute_sha256`: feeds the file to the hasher in 4096-byte chunks. */
  method ComputeSha256(file: Option<seq<byte>>, sha: seq<byte> -> seq<byte>) returns (r: string)
    ensures r == Unavailable <==> file.None?
    ensures r == Sha256Field(file, sha)
  {
    if file.None? {
      return Unavailable;
    }
    var data := file.value;
    var fed: seq<byte> := [];
    var pos := 0;
    while pos < |data|
      invariant 0 <= pos <= |data|
      invariant fed == data[..pos]
    {
      var end := if pos + 4096 <= |data| then pos + 4096 else |data|;
      fed := fed + data[pos..end];
      pos := end;
    }
    assert fed == data;
    r := Hexdigest(sha(fed));
    HexdigestIsNotSentinel(sha(fed));
  }

  /** The hash field of an event: the sentinel when the executable path is
      empty, otherwise what `_compute_sha256` gives for the file; so the
      sentinel exactly when the path is empty or the file could not be read. */
  function HashField(exe: string, file: Option<seq<byte>>, sha: seq<byte> -> seq<byte>): (r: string)
    ensures exe == "" ==> r == Unavailable
    ensures exe != "" ==> r == Sha256Field(file, sha)
    ensures r == Unavailable <==> exe == "" || file.None?
  {
    if exe == "" then Unavailable else Sha256Field(file, sha)
  }

  /** The minimal description sent to the analyser. */
  function ToAi(name: string, pid: nat): string {
    "NewProcess Name: " + name + " PID: " + NatToString(pid)
  }

  /** For a given name the description tells pids apart. */
  lemma ToAiPidInjective(name: string, p: nat, q: nat)
    requires ToAi(name, p) == ToAi(name, q)
    ensures p == q
  {
    var n := |"NewProcess Name: " + name + " PID: "|;
    assert NatToString(p) == ToAi(name, p)[n..];
    assert NatToString(q) == ToAi(name, q)[n..];
    NatToStringRoundTrip(p);
    NatToStringRoundTrip(q);
  }

  /** The parent's name, lowered, or "" when looking up the parent raised. */
  function ParentName(parent: Option<string>): string {
    if parent.Some? then Lower(parent.value) else ""
  }

  /** What `psutil.Process(pid)` and the calls on it saw: the process had
      already exited (`NoSuchProcess`), the first call on it raised (access
      denied, handled by the outer `except`), or its name, executable path,
      argument list and executable contents (`None` when unreadable). */
  datatype Observed =
    | Vanished
    | Failed
    | Alive(name: string, exe: string, args: seq<string>, file: Option<seq<byte>>)

  /** The variables of `_monitor_loop` that `check_lifetime` reads: `pid`,
      `parent_name`, `cmdline`, `sha256` and `to_ai`. */
  datatype Bindings = Bindings(pid: nat, parentName: string, cmdline: string, sha256: string, toAi: string)

  /** The body of `_monitor_loop` up to the two analyses: the values it binds
      for a process it could inspect, none for one that vanished or raised. */
  function NewProcessEvent(pid: nat, parent: Option<string>, obs: Observed, sha: seq<byte> -> seq<byte>): (r: Option<Bindings>)
    ensures r.None? <==> !obs.Alive?
    ensures r.Some? ==>
      && r.value.pid == pid
      && r.value.toAi == ToAi(obs.name, pid)
      && (parent.None? ==> r.value.parentName == "")
      && (parent.Some? ==> r.value.parentName == Lower(parent.value))
      && r.value.cmdline == Join(obs.args, " ")
      && r.value.sha256 == HashField(obs.exe, obs.file, sha)
      && (r.value.sha256 == Unavailable <==> obs.exe == "" || obs.file.None?)
  {
    match obs
    case Alive(name, exe, args, file) =>
      Some(Bindings(pid, ParentName(parent), Join(args, " "), HashField(exe, file, sha), ToAi(name, pid)))
    case _ => None
  }

  /** The loop's variables after one more event: `pid` is rebound by every
      event, even one whose process has vanished; the others only when the
      process could be inspected. */
  function Rebind(current: Bindings, pid: nat, parent: Option<string>, obs: Observed, sha: seq<byte> -> seq<byte>): (r: Bindings)
    ensures r.pid == pid
    ensures obs.Alive? ==> NewProcessEvent(pid, parent, obs, sha) == Some(r)
    ensures !obs.Alive? ==> r == current.(pid := pid)
  {
    match NewProcessEvent(pid, parent, obs, sha)
    case Some(b) => b
    case None => current.(pid := pid)
  }

  const CreationWords: seq<string> := ["danger", "suspicious", "unauthorized"]
  const ShortLivedWords: seq<string> := ["danger", "malware", "suspicious", "harm"]

  /** The creation question carries the description intact. */
  function CreationPrompt(toAi: string): (r: string)
    ensures |r| == 18 + |toAi| && r[18..] == toAi
  {
    "PROCESS_CREATION: " + toAi
  }

  /** The short-lived question carries the parent's name and the description
      intact, at fixed offsets. */
  function ShortLivedPrompt(parentName: string, toAi: string): (r: string)
    ensures |r| == 19 + |parentName| + |toAi|
    ensures r[17..17 + |parentName|] == parentName
    ensures r[19 + |parentName|..] == toAi
  {
    "SHORT_LIVED from " + parentName + ": " + toAi
  }

  /** How one analysis ends: a popup, nothing, or the failure popup followed by
      a "ping" to the analyser. */
  datatype Analysis = Flagged | Quiet | AiFailed

  /** The keyword rule of both analyses; `answer` is `None` when the call raised. */
  function Classify(answer: Option<string>, words: seq<string>): (a: Analysis)
    ensures a == AiFailed <==> answer.None?
    ensures a == Flagged <==> answer.Some? && KeywordAlert(answer.value, words)
  {
    if answer.None? then AiFailed
    else if KeywordAlert(answer.value, words) then Flagged
    else Quiet
  }

  /** Answers naming malware or harm flag a short-lived process but not a
      creation: the two word lists differ. */
  lemma MalwareFlagsOnlyShortLived()
    ensures Classify(Some("malware"), ShortLivedWords) == Flagged
    ensures Classify(Some("malware"), CreationWords) == Quiet
  {
    assert OccursAt("malware", Lower("malware"), 0);
    var t := Lower("malware");
    assert t == "malware";
    forall j | 0 <= j <= |t| - 6 ensures !OccursAt("danger", t, j) {
      assert t[j..j + 6][0] == t[j] != 'd';
    }
    assert !MatchesAny(t, CreationWords);
  }

  /** One check of a watcher: whether `psutil.pid_exists` held, `time.time()`
      at that moment, and the values the closure would put into its
      short-lived question then. */
  datatype Poll = Poll(alive: bool, clock: int, seen: Bindings)

  datatype Lifetime = StillWatching | ShortLived(duration: int, seen: Bindings) | LongLived(duration: int)

  const ShortLivedMs: int := 5000

  /** Position `i` is the first poll that found the process gone. */
  predicate FirstGone(polls: seq<Poll>, i: int) {
    0 <= i < |polls| && !polls[i].alive && forall j :: 0 <= j < i ==> polls[j].alive
  }

  /** What the watcher concludes from its polls, measured from its own start. */
  function LifetimeOf(start: int, polls: seq<Poll>): Lifetime
    decreases |polls|
  {
    if polls == [] then StillWatching
    else if !polls[0].alive then
      var d := polls[0].clock - start;
      if d < ShortLivedMs then ShortLived(d, polls[0].seen) else LongLived(d)
    else LifetimeOf(start, polls[1..])
  }

  /** The watcher keeps watching while the process lives; at the first poll
      that finds it gone it is short-lived exactly when less than five seconds
      have passed since the watcher started, and it asks about what it read at
      that poll. */
  lemma {:induction false} LifetimeOfMeaning(start: int, polls: seq<Poll>)
    ensures LifetimeOf(start, polls).StillWatching? <==> forall j :: 0 <= j < |polls| ==> polls[j].alive
    ensures !LifetimeOf(start, polls).StillWatching? ==>
      exists i :: FirstGone(polls, i) && LifetimeOf(start, polls).duration == polls[i].clock - start
        && (LifetimeOf(start, polls).ShortLived? ==> LifetimeOf(start, polls).seen == polls[i].seen)
    ensures LifetimeOf(start, polls).ShortLived? <==>
      exists i :: FirstGone(polls, i) && polls[i].clock - start < ShortLivedMs
    decreases |polls|
  {
    if polls != [] {
      if !polls[0].alive {
        assert FirstGone(polls, 0);
        forall i | FirstGone(polls, i) ensures i == 0 {
        }
      } else {
        LifetimeOfMeaning(start, polls[1..]);
        forall i | FirstGone(polls[1..], i) ensures FirstGone(polls, i + 1) {
          assert forall j :: 1 <= j < i + 1 ==> polls[j] == polls[1..][j - 1];
        }
        forall i | FirstGone(polls, i) ensures i >= 1 && FirstGone(polls[1..], i - 1) {
          assert forall j :: 0 <= j < i - 1 ==> polls[1..][j] == polls[j + 1];
        }
        assert (forall j :: 0 <= j < |polls| ==> polls[j].alive) <==>
               (forall j :: 0 <= j < |polls[1..]| ==> polls[1..][j].alive);
      }
    }
  }

  /** The polls of a watcher bound to its own process `w`, made at `times`;
      `pidExists(pid, t)` is `psutil.pid_exists(pid)` at time `t`. */
  function OwnPolls(w: Bindings, times: seq<int>, pidExists: (nat, int) -> bool): (ps: seq<Poll>)
    ensures |ps| == |times|
    ensures forall i :: 0 <= i < |times| ==> ps[i] == Poll(pidExists(w.pid, times[i]), times[i], w)
  {
    seq(|times|, i requires 0 <= i < |times| => Poll(pidExists(w.pid, times[i]), times[i], w))
  }

  /** The polls of `check_lifetime` as written: the closure reads the loop's
      variables when it runs, so at its `i`-th poll it tests and reports
      whatever the loop bound last, `current[i]`. */
  function SharedPolls(current: seq<Bindings>, times: seq<int>, pidExists: (nat, int) -> bool): (ps: seq<Poll>)
    requires |current| == |times|
    ensures |ps| == |times|
    ensures forall i :: 0 <= i < |times| ==> ps[i] == Poll(pidExists(current[i].pid, times[i]), times[i], current[i])
  {
    seq(|times|, i requires 0 <= i < |times| => Poll(pidExists(current[i].pid, times[i]), times[i], current[i]))
  }

  /** `check_lifetime` for a watcher bound to its own process `w`, polling at
      `times` until it returns. */
  method CheckLifetime(start: int, w: Bindings, times: seq<int>, pidExists: (nat, int) -> bool) returns (l: Lifetime)
    ensures l == LifetimeOf(start, OwnPolls(w, times, pidExists))
  {
    ghost var polls := OwnPolls(w, times, pidExists);
    var i := 0;
    assert polls[0..] == polls;
    while i < |times|
      invariant 0 <= i <= |times|
      invariant LifetimeOf(start, polls) == LifetimeOf(start, polls[i..])
    {
      assert polls[i..][0] == polls[i] && polls[i..][1..] == polls[i + 1..];
      if !pidExists(w.pid, times[i]) {
        var duration := times[i] - start;
        if duration < ShortLivedMs {
          return ShortLived(duration, w);
        }
        return LongLived(duration);
      }
      i := i + 1;
    }
    return StillWatching;
  }

  /** A watcher bound to its own process reports it short-lived only when that
      process was found gone within five seconds, asks about that process,
      and never reports a process that outlives every poll. */
  lemma OwnWatcherReportsOwnProcess(start: int, w: Bindings, times: seq<int>, pidExists: (nat, int) -> bool)
    ensures var l := LifetimeOf(start, OwnPolls(w, times, pidExists));
      && (l.ShortLived? ==> l.seen == w)
      && (l.ShortLived? ==>
            exists i :: 0 <= i < |times| && !pidExists(w.pid, times[i]) && times[i] - start < ShortLivedMs)
      && ((forall i :: 0 <= i < |times| ==> pidExists(w.pid, times[i])) ==> l == StillWatching)
  {
    var ps := OwnPolls(w, times, pidExists);
    LifetimeOfMeaning(start, ps);
  }

  /** As written, a watcher can report a process that is still running: after
      process `w` starts, an event for a process `q` that has already vanished
      rebinds `pid`, so `w`'s next poll tests `q`, finds it gone and asks a
      short-lived question built from `w`'s parent and description. A watcher
      bound to its own process keeps watching. */
  lemma LateBindingReportsLiveProcess(w: Bindings, q: nat, parent: Option<string>, sha: seq<byte> -> seq<byte>, start: int)
    requires q != w.pid
    ensures var pidExists := (p: nat, t: int) => p == w.pid;
      var now := Rebind(w, q, parent, Vanished, sha);
      && LifetimeOf(start, SharedPolls([now], [start + 500], pidExists)) == ShortLived(500, now)
      && now.parentName == w.parentName && now.toAi == w.toAi
      && LifetimeOf(start, OwnPolls(w, [start + 500], pidExists)) == StillWatching
  {
    var pidExists := (p: nat, t: int) => p == w.pid;
    var now := Rebind(w, q, parent, Vanished, sha);
    var shared := SharedPolls([now], [start + 500], pidExists);
    assert shared[0] == Poll(false, start + 500, now);
    assert shared[1..] == [];
    var own := OwnPolls(w, [start + 500], pidExists);
    assert own[0] == Poll(true, start + 500, w);
    assert own[1..] == [];
  }

  /** The prompts sent about one process once its watcher has finished: the
      creation question about the process itself, and the short-lived question
      about what the watcher read when it found the process gone. */
  function Prompts(w: Bindings, l: Lifetime): (ps: seq<string>)
    ensures |ps| == if l.ShortLived? then 2 else 1
    ensures ps[0] == CreationPrompt(w.toAi)
    ensures l.ShortLived? ==> ps[1] == ShortLivedPrompt(l.seen.parentName, l.seen.toAi)
  {
    [CreationPrompt(w.toAi)] + if l.ShortLived? then [ShortLivedPrompt(l.seen.parentName, l.seen.toAi)] else []
  }

  /** A process its own watcher sees gone two seconds after starting is
      analysed twice, once on creation and once as short-lived; one seen gone
      after thirty seconds only once. */
  lemma TwoSecondsVersusThirty(w: Bindings, start: int, before: seq<int>, pidExists: (nat, int) -> bool)
    requires forall j :: 0 <= j < |before| ==> pidExists(w.pid, before[j])
    requires !pidExists(w.pid, start + 2000) && !pidExists(w.pid, start + 30000)
    ensures Prompts(w, LifetimeOf(start, OwnPolls(w, before + [start + 2000], pidExists))) ==
      [CreationPrompt(w.toAi), ShortLivedPrompt(w.parentName, w.toAi)]
    ensures Prompts(w, LifetimeOf(start, OwnPolls(w, before + [start + 30000], pidExists))) == [CreationPrompt(w.toAi)]
  {
    var t2, t30 := before + [start + 2000], before + [start + 30000];
    var p2, p30 := OwnPolls(w, t2, pidExists), OwnPolls(w, t30, pidExists);
    LifetimeOfMeaning(start, p2);
    LifetimeOfMeaning(start, p30);
    assert t2[|before|] == start + 2000 && t30[|before|] == start + 30000;
    assert forall j :: 0 <= j < |before| ==> t2[j] == before[j] && t30[j] == before[j];
    assert FirstGone(p2, |before|);
    assert FirstGone(p30, |before|);
    forall i | FirstGone(p2, i) ensures i == |before| {
    }
    forall i | FirstGone(p30, i) ensures i == |before| {
    }
  }
}

/** The registry monitor: snapshots of the service keys under
    HKLM\SYSTEM\CurrentControlSet\Services, the comparison of two snapshots, and
    the keyword test applied to the analyser's answer about each change.
    Reading the registry is I/O: what the enumeration delivered is a parameter,
    and SHA-256 is a function parameter. */
module RegistryMonitor {
  import opened Common
  import opened Text
  import opened Encoding

  const ServicesPath: string := "SYSTEM\\CurrentControlSet\\Services"

  /** Hex digest of a value's data. */
  type Hash = string
  /** Value name -> hash of its data, for one key. */
  type Values = map<string, Hash>
  /** Full key path -> the values of that key. */
  type Snapshot = map<string, Values>

  /** Data of a registry value as `winreg.EnumValue` delivers it. */
  datatype RegData =
    | RegText(text: string)        // REG_SZ, REG_EXPAND_SZ: a Python str
    | RegBinary(bytes: seq<byte>)  // REG_BINARY: Python bytes
    | RegNumber(n: int)            // REG_DWORD, REG_QWORD: a Python int
    | RegOther(str: string)        // any other Python value, given by its str()

  /** The bytes that are hashed: UTF-16LE for a str, the bytes themselves, and
      `str(data).encode()` for everything else. Text data can be read back
      from the bytes that are hashed, and bytes are hashed as they are. */
  function EncodeData(d: RegData): (r: seq<byte>)
    ensures d.RegText? ==> DecodeUtf16Le(r) == Some(d.text)
    ensures d.RegBinary? ==> r == d.bytes
  {
    match d
    case RegText(t) => Utf16LeRoundTrip(t); Utf16Le(t)
    case RegBinary(b) => b
    case RegNumber(n) => Utf8(IntToString(n))
    case RegOther(t) => Utf8(t)
  }

  /** A number is hashed as its ASCII decimal digits. */
  lemma NumberDataIsDecimal(n: nat)
    ensures EncodeData(RegNumber(n)) == seq(|NatToString(n)|, i requires 0 <= i < |NatToString(n)| => NatToString(n)[i] as int)
    ensures DecimalValue(NatToString(n)) == n
  {
    Utf8Ascii(NatToString(n));
    NatToStringRoundTrip(n);
  }

  /** The hash sees bytes only, not types: the text "A" and the two bytes 0x41 0x00
      are hashed alike, so changing one into the other is not reported. */
  lemma TypeChangeInvisible()
    ensures EncodeData(RegText("A")) == EncodeData(RegBinary([0x41, 0x00]))
  {
    assert CharUtf16Le('A') == [0x41, 0x00];
  }

  /** Outcome of `winreg.OpenKey` on one key, with the values enumerated from it
      until `EnumValue` raised. */
  datatype KeyRead =
    | Opened(values: seq<(string, RegData)>)
    | NotFound   // FileNotFoundError: the key has no values
    | Denied     // any other OSError: it escapes `_hash_key_values`

  /** Position `i` holds the last value of that name. */
  predicate LastOfName<T>(entries: seq<(string, T)>, i: int)
    requires 0 <= i < |entries|
  {
    forall j :: i < j < |entries| ==> entries[j].0 != entries[i].0
  }

  /** Every name that occurs in `entries`. */
  function Names<T>(entries: seq<(string, T)>): set<string> {
    set k | 0 <= k < |entries| :: entries[k].0
  }

  lemma NamesSnoc<T>(entries: seq<(string, T)>, e: (string, T))
    ensures Names(entries + [e]) == Names(entries) + {e.0}
  {
    var s := entries + [e];
    assert s[|entries|] == e;
    assert forall k :: 0 <= k < |entries| ==> s[k] == entries[k];
  }

  /** Extending a list by one entry: an earlier entry that is still the last of its
      name was the last of its name before, and has a different name from the new one. */
  lemma LastOfNameShrink<T>(entries: seq<(string, T)>, i: int)
    requires 0 <= i < |entries|
    ensures forall k :: 0 <= k < i && LastOfName(entries[..i + 1], k) ==>
              LastOfName(entries[..i], k) && entries[k].0 != entries[i].0
  {
    forall k | 0 <= k < i && LastOfName(entries[..i + 1], k)
      ensures LastOfName(entries[..i], k) && entries[k].0 != entries[i].0
    {
      assert entries[..i + 1][i] == entries[i];
      forall j | k < j < i ensures entries[..i][j].0 != entries[..i][k].0 {
        assert entries[..i + 1][j] == entries[..i][j];
      }
    }
  }

  /** `vals` is what `_hash_key_values` gives for a key read as `read`: nothing for
      a missing key; for an opened key, every enumerated name, mapped to the hash
      of the encoded data of the last value of that name. */
  predicate HashesOf(read: KeyRead, sha: seq<byte> -> Hash, vals: Values) {
    match read
    case NotFound => vals == map[]
    case Denied => false
    case Opened(values) =>
      && vals.Keys == Names(values)
      && forall i :: 0 <= i < |values| && LastOfName(values, i) ==> vals[values[i].0] == sha(EncodeData(values[i].1))
  }

  /** `_hash_key_values`. `None` stands for the OSError it lets escape. */
  method HashKeyValues(read: KeyRead, sha: seq<byte> -> Hash) returns (r: Option<Values>)
    ensures read.Denied? <==> r.None?
    ensures r.Some? ==> HashesOf(read, sha, r.value)
  {
    match read
    case Denied => r := None;
    case NotFound => r := Some(map[]);
    case Opened(values) =>
      var result: Values := map[];
      var i := 0;
      while i < |values|
        invariant 0 <= i <= |values|
        invariant result.Keys == Names(values[..i])
        invariant forall k :: 0 <= k < i && LastOfName(values[..i], k) ==>
                    result[values[k].0] == sha(EncodeData(values[k].1))
      {
        var (name, data) := values[i];
        assert values[..i + 1] == values[..i] + [values[i]];
        NamesSnoc(values[..i], values[i]);
        LastOfNameShrink(values, i);
        result := result[name := sha(EncodeData(data))];
        i := i + 1;
      }
      assert values[..i] == values;
      r := Some(result);
  }

  function ServicePath(sub: string): string {
    ServicesPath + "\\" + sub
  }

  /** Different service key names give different full paths. */
  lemma ServicePathInjective(a: string, b: string)
    requires ServicePath(a) == ServicePath(b)
    ensures a == b
  {
    var n := |ServicesPath| + 1;
    assert ServicePath(a)[n..] == a;
    assert ServicePath(b)[n..] == b;
  }

  /** Index of the first subkey whose values could not be read, or the number of
      subkeys when there is none. */
  function FirstDenied(subkeys: seq<(string, KeyRead)>): (k: nat)
    ensures k <= |subkeys|
    ensures forall i :: 0 <= i < k ==> !subkeys[i].1.Denied?
    ensures k < |subkeys| ==> subkeys[k].1.Denied?
  {
    if subkeys == [] then 0
    else if subkeys[0].1.Denied? then 0
    else 1 + FirstDenied(subkeys[1..])
  }

  /** The full paths of the listed service keys. */
  function ServicePaths(subkeys: seq<(string, KeyRead)>): set<string> {
    set k | 0 <= k < |subkeys| :: ServicePath(subkeys[k].0)
  }

  lemma ServicePathsSnoc(subkeys: seq<(string, KeyRead)>, e: (string, KeyRead))
    ensures ServicePaths(subkeys + [e]) == ServicePaths(subkeys) + {ServicePath(e.0)}
  {
    var s := subkeys + [e];
    assert s[|subkeys|] == e;
    assert forall k :: 0 <= k < |subkeys| ==> s[k] == subkeys[k];
  }

  /** `_snapshot_all_services`: one entry per enumerated service key, under its
      full path, holding the hashes of its values. The first key whose values raise
      an OSError ends the enumeration, so it and every key after it are missing. */
  method SnapshotAllServices(subkeys: seq<(string, KeyRead)>, sha: seq<byte> -> Hash) returns (snap: Snapshot)
    ensures snap.Keys == ServicePaths(subkeys[..FirstDenied(subkeys)])
    ensures forall i :: 0 <= i < FirstDenied(subkeys) && LastOfName(subkeys[..FirstDenied(subkeys)], i) ==>
              HashesOf(subkeys[i].1, sha, snap[ServicePath(subkeys[i].0)])
  {
    snap := map[];
    var i := 0;
    var stop := FirstDenied(subkeys);
    while i < stop
      invariant 0 <= i <= stop
      invariant snap.Keys == ServicePaths(subkeys[..i])
      invariant forall k :: 0 <= k < i && LastOfName(subkeys[..i], k) ==>
                  HashesOf(subkeys[k].1, sha, snap[ServicePath(subkeys[k].0)])
    {
      var values := HashKeyValues(subkeys[i].1, sha);
      SnapshotStep(subkeys, sha, i, snap, values.value);
      snap := snap[ServicePath(subkeys[i].0) := values.value];
      i := i + 1;
    }
  }

  /** One step of the enumeration: recording the values of subkey `i` under
      its path keeps the snapshot right for the subkeys read so far. */
  lemma SnapshotStep(subkeys: seq<(string, KeyRead)>, sha: seq<byte> -> Hash, i: int, snap: Snapshot, vals: Values)
    requires 0 <= i < |subkeys|
    requires HashesOf(subkeys[i].1, sha, vals)
    requires snap.Keys == ServicePaths(subkeys[..i])
    requires forall k :: 0 <= k < i && LastOfName(subkeys[..i], k) ==>
               HashesOf(subkeys[k].1, sha, snap[ServicePath(subkeys[k].0)])
    ensures snap[ServicePath(subkeys[i].0) := vals].Keys == ServicePaths(subkeys[..i + 1])
    ensures forall k :: 0 <= k < i + 1 && LastOfName(subkeys[..i + 1], k) ==>
               HashesOf(subkeys[k].1, sha, snap[ServicePath(subkeys[i].0) := vals][ServicePath(subkeys[k].0)])
  {
    var path := ServicePath(subkeys[i].0);
    var next := snap[path := vals];
    assert subkeys[..i + 1] == subkeys[..i] + [subkeys[i]];
    ServicePathsSnoc(subkeys[..i], subkeys[i]);
    LastOfNameShrink(subkeys, i);
    forall k | 0 <= k < i + 1 && LastOfName(subkeys[..i + 1], k)
      ensures HashesOf(subkeys[k].1, sha, next[ServicePath(subkeys[k].0)])
    {
      if k < i {
        if ServicePath(subkeys[k].0) == path {
          ServicePathInjective(subkeys[k].0, subkeys[i].0);
        }
      }
    }
  }

  /** One record per reported difference; `Detail` renders it as the monitor words it. */
  datatype Change =
    | ValueAdded(path: string, name: string)
    | ValueModified(path: string, name: string)
    | ValueDeleted(path: string, name: string)
    | KeyDeleted(path: string)
    | KeyAdded(path: string)

  /** The opening words of each kind of change. */
  function Lead(c: Change): string {
    match c
    case ValueAdded(_, _) => "New registry value '"
    case ValueModified(_, _) => "Modified registry value '"
    case ValueDeleted(_, _) => "Deleted registry value '"
    case KeyDeleted(_) => "Deleted registry key '"
    case KeyAdded(_) => "New registry key '"
  }

  /** The text opens with the wording of its kind of change, always names the
      key, and for a value change also names the value. */
  function Detail(c: Change): (r: string)
    ensures Lead(c) <= r
    ensures Occurs(c.path, r)
    ensures !c.KeyDeleted? && !c.KeyAdded? ==> Occurs(c.name, r)
  {
    match c
    case ValueAdded(p, n) => ValueDetail("New registry value '", n, p)
    case ValueModified(p, n) => ValueDetail("Modified registry value '", n, p)
    case ValueDeleted(p, n) => ValueDetail("Deleted registry value '", n, p)
    case KeyDeleted(p) =>
      OccursBetween("Deleted registry key '", p, "' under Services");
      "Deleted registry key '" + p + "' under Services"
    case KeyAdded(p) =>
      OccursBetween("New registry key '", p, "' under Services");
      "New registry key '" + p + "' under Services"
  }

  /** The wording of a value-level change: `lead`, the value name, then the key. */
  function ValueDetail(lead: string, n: string, p: string): (r: string)
    ensures lead <= r
    ensures Occurs(n, r) && Occurs(p, r)
  {
    var r := lead + n + "' under '" + p + "'";
    OccursBetween(lead, n, "' under '" + p + "'");
    assert r == lead + n + ("' under '" + p + "'");
    OccursBetween(lead + n + "' under '", p, "'");
    r
  }

  /** Two changes worded alike are of the same kind. */
  lemma DetailDeterminesKind(c: Change, d: Change)
    requires Detail(c) == Detail(d)
    ensures c.ValueAdded? <==> d.ValueAdded?
    ensures c.ValueModified? <==> d.ValueModified?
    ensures c.ValueDeleted? <==> d.ValueDeleted?
    ensures c.KeyDeleted? <==> d.KeyDeleted?
    ensures c.KeyAdded? <==> d.KeyAdded?
  {
    SameLeadSameKind(c, d, Detail(c));
  }

  /** No two kinds' opening words fit the same text: they disagree within
      their common length. */
  lemma SameLeadSameKind(c: Change, d: Change, r: string)
    requires Lead(c) <= r && Lead(d) <= r
    ensures c.ValueAdded? <==> d.ValueAdded?
    ensures c.ValueModified? <==> d.ValueModified?
    ensures c.ValueDeleted? <==> d.ValueDeleted?
    ensures c.KeyDeleted? <==> d.KeyDeleted?
    ensures c.KeyAdded? <==> d.KeyAdded?
  {
    assert Lead(c)[0] == r[0] == Lead(d)[0];
    if r[0] == 'N' {
      assert Lead(c)[13] == r[13] == Lead(d)[13];
    } else if r[0] == 'D' {
      assert Lead(c)[17] == r[17] == Lead(d)[17];
    }
  }

  /** `prev_snapshot.get(key_path, {})`. */
  function OldValues(prev: Snapshot, path: string): Values {
    if path in prev then prev[path] else map[]
  }

  /** The value-level change `c` holds between the old and new values of one key. */
  predicate ValueChangeIn(oldVals: Values, newVals: Values, c: Change) {
    match c
    case ValueAdded(_, n) => n in newVals && n !in oldVals
    case ValueModified(_, n) => n in newVals && n in oldVals && oldVals[n] != newVals[n]
    case ValueDeleted(_, n) => n in oldVals && n !in newVals
    case _ => false
  }

  /** The changes one comparison reports: value changes for every key present in
      the new snapshot (a key absent from the old one counts as having no values),
      and key-level changes for keys present in only one snapshot. */
  predicate Reported(prev: Snapshot, next: Snapshot, c: Change) {
    match c
    case KeyDeleted(p) => p in prev && p !in next
    case KeyAdded(p) => p in next && p !in prev
    case _ => c.path in next && ValueChangeIn(OldValues(prev, c.path), next[c.path], c)
  }

  /** The comparison of `_monitor_loop`, lines for the values of one key:
      every value new or changed, then every value gone, each reported once. */
  method DiffValues(path: string, oldVals: Values, newVals: Values) returns (out: seq<Change>)
    ensures forall c :: c in out <==> c.path == path && ValueChangeIn(oldVals, newVals, c)
    ensures NoDuplicates(out)
  {
    out := [];
    var names := newVals.Keys;
    while names != {}
      invariant names <= newVals.Keys
      invariant forall c :: c in out <==>
        c.path == path && !c.ValueDeleted? && ValueChangeIn(oldVals, newVals, c) && c.name in newVals.Keys - names
      invariant NoDuplicates(out)
    {
      var n :| n in names;
      if n !in oldVals {
        out := out + [ValueAdded(path, n)];
      } else if oldVals[n] != newVals[n] {
        out := out + [ValueModified(path, n)];
      }
      names := names - {n};
    }
    var oldNames := oldVals.Keys;
    while oldNames != {}
      invariant oldNames <= oldVals.Keys
      invariant forall c :: c in out <==>
        c.path == path && ValueChangeIn(oldVals, newVals, c) && (c.ValueDeleted? ==> c.name in oldVals.Keys - oldNames)
      invariant NoDuplicates(out)
    {
      var n :| n in oldNames;
      if n !in newVals {
        out := out + [ValueDeleted(path, n)];
      }
      oldNames := oldNames - {n};
    }
  }

  /** The whole comparison of `_monitor_loop`: exactly the reported changes, each
      once, in the order of the source's loops (dictionary order is not modelled:
      keys are taken in any order). */
  method DiffSnapshots(prev: Snapshot, next: Snapshot) returns (out: seq<Change>)
    ensures forall c :: c in out <==> Reported(prev, next, c)
    ensures NoDuplicates(out)
  {
    out := [];
    var todo := next.Keys;
    while todo != {}
      invariant todo <= next.Keys
      invariant forall c :: c in out <==>
        !c.KeyDeleted? && !c.KeyAdded? && c.path in next.Keys - todo && Reported(prev, next, c)
      invariant NoDuplicates(out)
    {
      var p :| p in todo;
      var recs := DiffValues(p, OldValues(prev, p), next[p]);
      NoDuplicatesConcat(out, recs);
      out := out + recs;
      todo := todo - {p};
    }
    var gone := prev.Keys - next.Keys;
    while gone != {}
      invariant gone <= prev.Keys - next.Keys
      invariant forall c :: c in out <==>
        !c.KeyAdded? && Reported(prev, next, c) && (c.KeyDeleted? ==> c.path !in gone)
      invariant NoDuplicates(out)
    {
      var p :| p in gone;
      out := out + [KeyDeleted(p)];
      gone := gone - {p};
    }
    var added := next.Keys - prev.Keys;
    while added != {}
      invariant added <= next.Keys - prev.Keys
      invariant forall c :: c in out <==> Reported(prev, next, c) && (c.KeyAdded? ==> c.path !in added)
      invariant NoDuplicates(out)
    {
      var p :| p in added;
      out := out + [KeyAdded(p)];
      added := added - {p};
    }
  }

  /** Nothing is reported exactly when the two snapshots are equal. */
  lemma NothingReportedIffEqual(prev: Snapshot, next: Snapshot)
    ensures (forall c :: !Reported(prev, next, c)) <==> prev == next
  {
    if forall c :: !Reported(prev, next, c) {
      forall p | p in prev ensures p in next {
        assert !Reported(prev, next, KeyDeleted(p));
      }
      forall p | p in next ensures p in prev && prev[p] == next[p] {
        assert !Reported(prev, next, KeyAdded(p));
        forall n | n in next[p] ensures n in prev[p] && prev[p][n] == next[p][n] {
          assert !Reported(prev, next, ValueAdded(p, n));
          assert !Reported(prev, next, ValueModified(p, n));
        }
        forall n | n in prev[p] ensures n in next[p] {
          assert !Reported(prev, next, ValueDeleted(p, n));
        }
      }
    }
  }

  /** A key that vanished is reported once as a key and never value by value;
      a key that appeared is reported as a key and as one new value per value. */
  lemma KeyLevelChanges(prev: Snapshot, next: Snapshot, p: string)
    ensures p in prev && p !in next ==>
      Reported(prev, next, KeyDeleted(p)) && forall n :: !Reported(prev, next, ValueDeleted(p, n))
    ensures p in next && p !in prev ==>
      Reported(prev, next, KeyAdded(p)) &&
      forall n :: Reported(prev, next, ValueAdded(p, n)) <==> n in next[p]
  {
  }

  /** The keywords `_flag_registry_change` looks for in the analyser's answer. */
  const RegistryWords: seq<string> := ["danger", "disable", "malicious", "unauthorized"]

  /** The text handed to the analyser: the detail intact after a fixed tag. */
  function RegistryPrompt(detail: string): (r: string)
    ensures |r| == |detail| + 17 && r[17..] == detail
  {
    "REGISTRY_CHANGE: " + detail
  }

  /** `_flag_registry_change`, after the analyser answered `answer`: flagged
      iff one of the four words occurs in the lowered answer. */
  function FlagRegistryChange(answer: string): (flagged: bool)
    ensures flagged <==> exists i :: 0 <= i < |RegistryWords| && Occurs(RegistryWords[i], Lower(answer))
  {
    KeywordAlert(answer, RegistryWords)
  }

  /** The state `_monitor_loop` keeps across passes: the baseline snapshot, and
      every change handed to `_flag_registry_change` so far. */
  class RegistryWatch {
    var baseline: Snapshot
    var flagged: seq<Change>

    constructor (initial: Snapshot)
      ensures baseline == initial && flagged == []
    {
      baseline := initial;
      flagged := [];
    }

    /** One pass after a change notification. `reading` is the new snapshot, or
        `None` when taking it raised: then nothing is reported and the baseline is
        kept. Otherwise every difference is reported once and the new snapshot
        becomes the baseline. */
    method Pass(reading: Option<Snapshot>)
      modifies this
      ensures reading.None? ==> baseline == old(baseline) && flagged == old(flagged)
      ensures reading.Some? ==> baseline == reading.value
      ensures reading.Some? ==> exists d ::
                && flagged == old(flagged) + d && NoDuplicates(d)
                && (forall c :: c in d <==> Reported(old(baseline), reading.value, c))
    {
      if reading.Some? {
        var d := DiffSnapshots(baseline, reading.value);
        flagged := flagged + d;
        baseline := reading.value;
      }
    }
  }
}

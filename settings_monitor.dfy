/** The settings monitor: the firewall profile states and the Defender real-time
    protection flag, read every ten seconds through PowerShell, and the
    comparison of each reading with the previous one. The PowerShell call and
    `json.loads` are external: their outcome is a `Loaded` value, and a failed
    call is modelled as `DecodeError` (both end in the same `except`). */
module SettingsMonitor {
  import opened Common
  import opened Text
  import opened Json

  /** Profile name -> its `Enabled` value, as `_get_firewall_state` returns it. */
  type FirewallState = map<Json, Json>

  /** An element of the decoded output that describes a profile. */
  predicate IsProfile(e: Json) {
    e.JObj? && "Name" in e.fields && "Enabled" in e.fields
  }

  /** Position `i` is the last profile entry carrying its name. */
  predicate LastProfile(entries: seq<Json>, i: int)
    requires 0 <= i < |entries| && IsProfile(entries[i])
  {
    forall j :: i < j < |entries| && IsProfile(entries[j]) ==>
      entries[j].fields["Name"] != entries[i].fields["Name"]
  }

  /** Every profile entry has a name that can be a dictionary key. */
  predicate NamesHashable(entries: seq<Json>) {
    forall i :: 0 <= i < |entries| && IsProfile(entries[i]) ==> Hashable(entries[i].fields["Name"])
  }

  function ProfileNames(entries: seq<Json>): set<Json> {
    set i | 0 <= i < |entries| && IsProfile(entries[i]) :: entries[i].fields["Name"]
  }

  /** What `_get_firewall_state` returns for the decoded output `loaded`:
      - a list gives exactly its profile entries, a later entry of the same name
        replacing an earlier one, and other elements are skipped;
      - a single profile dict gives a one-entry map;
      - anything else, a decoding failure, or a profile name that is a list or a
        dict (the TypeError ends in the `except`) gives `{}`. */
  predicate FirewallReading(loaded: Loaded, state: FirewallState) {
    if loaded.DecodeError? then state == map[]
    else if loaded.value.JArr? then
      var entries := loaded.value.items;
      if !NamesHashable(entries) then state == map[]
      else
        && state.Keys == ProfileNames(entries)
        && forall i :: 0 <= i < |entries| && IsProfile(entries[i]) && LastProfile(entries, i) ==>
             state[entries[i].fields["Name"]] == entries[i].fields["Enabled"]
    else
      var data := loaded.value;
      if IsProfile(data) && Hashable(data.fields["Name"])
      then state == map[data.fields["Name"] := data.fields["Enabled"]]
      else state == map[]
  }

  /** The reading is a function of the output: two states that both fit it are equal. */
  lemma FirewallReadingUnique(loaded: Loaded, s1: FirewallState, s2: FirewallState)
    requires FirewallReading(loaded, s1) && FirewallReading(loaded, s2)
    ensures s1 == s2
  {
    if loaded.Loaded? && loaded.value.JArr? && NamesHashable(loaded.value.items) {
      var entries := loaded.value.items;
      forall p | p in s1 ensures s1[p] == s2[p] {
        var i := LastIndexOf(entries, p);
      }
    }
  }

  /** The last profile entry named `p`, for a name that occurs. */
  function LastIndexOf(entries: seq<Json>, p: Json): (i: int)
    requires p in ProfileNames(entries)
    ensures 0 <= i < |entries| && IsProfile(entries[i]) && entries[i].fields["Name"] == p
    ensures LastProfile(entries, i)
  {
    var n := |entries| - 1;
    if IsProfile(entries[n]) && entries[n].fields["Name"] == p then n
    else
      var front := entries[..n];
      assert p in ProfileNames(front) by {
        var k :| 0 <= k < |entries| && IsProfile(entries[k]) && entries[k].fields["Name"] == p;
        assert k < n && front[k] == entries[k];
      }
      var i := LastIndexOf(front, p);
      assert front[i] == entries[i];
      assert forall j :: i < j < n ==> front[j] == entries[j];
      i
  }

  /** `_get_firewall_state`, after the PowerShell call, as the loop builds it. */
  method GetFirewallState(loaded: Loaded) returns (state: FirewallState)
    ensures FirewallReading(loaded, state)
  {
    state := map[];
    if loaded.DecodeError? {
      return;
    }
    if loaded.value.JArr? {
      var entries := loaded.value.items;
      var i := 0;
      while i < |entries|
        invariant 0 <= i <= |entries|
        invariant NamesHashable(entries[..i])
        invariant state.Keys == ProfileNames(entries[..i])
        invariant forall k :: 0 <= k < i && IsProfile(entries[k]) && LastProfile(entries[..i], k) ==>
                    state[entries[k].fields["Name"]] == entries[k].fields["Enabled"]
      {
        var entry := entries[i];
        assert entries[..i + 1] == entries[..i] + [entry];
        if IsProfile(entry) {
          var name := entry.fields["Name"];
          if !Hashable(name) {
            // `state[entry["Name"]] = ...` raises TypeError: the except returns {}.
            state := map[];
            assert !NamesHashable(entries);
            return;
          }
          state := state[name := entry.fields["Enabled"]];
        }
        ProfileStep(entries, i);
        i := i + 1;
      }
      assert entries[..i] == entries;
    } else {
      var data := loaded.value;
      if IsProfile(data) && Hashable(data.fields["Name"]) {
        state := map[data.fields["Name"] := data.fields["Enabled"]];
      }
    }
  }

  /** How the profile names and the last-entry property change when the list
      grows by one element. */
  lemma ProfileStep(entries: seq<Json>, i: int)
    requires 0 <= i < |entries|
    ensures ProfileNames(entries[..i + 1]) ==
      ProfileNames(entries[..i]) + (if IsProfile(entries[i]) then {entries[i].fields["Name"]} else {})
    ensures NamesHashable(entries[..i]) && (IsProfile(entries[i]) ==> Hashable(entries[i].fields["Name"])) ==>
      NamesHashable(entries[..i + 1])
    ensures forall k :: 0 <= k < i && IsProfile(entries[k]) && LastProfile(entries[..i + 1], k) ==>
      LastProfile(entries[..i], k) && (IsProfile(entries[i]) ==> entries[i].fields["Name"] != entries[k].fields["Name"])
  {
    var s := entries[..i + 1];
    assert s[i] == entries[i];
    assert forall k :: 0 <= k < i ==> s[k] == entries[..i][k] == entries[k];
  }

  /** `_get_defender_realtime_state` after the PowerShell call: protection is on
      unless `DisableRealtimeMonitoring` is truthy, and on when the key is absent;
      `None` when the call or decoding failed or the output is not a dict (its
      `.get` raises AttributeError). */
  function DefenderRealtimeState(loaded: Loaded): (r: Option<bool>)
    ensures r.None? <==> !(loaded.Loaded? && loaded.value.JObj?)
    ensures r.Some? && "DisableRealtimeMonitoring" !in loaded.value.fields ==> r.value
    ensures r.Some? && "DisableRealtimeMonitoring" in loaded.value.fields ==>
              r.value == !Truthy(loaded.value.fields["DisableRealtimeMonitoring"])
  {
    match loaded
    case Loaded(JObj(fields)) => Some(!Truthy(Get(fields, "DisableRealtimeMonitoring", JBool(false))))
    case _ => None
  }

  /** A difference the monitor hands to `_flag_settings_change`. */
  datatype SettingsChange =
    | FirewallChanged(profile: Json, before: Json, after: Json)
    | DefenderChanged(wasOn: bool, isOn: bool)

  /** A firewall change is reported for a profile present in both readings, whose
      previous value is not None and differs from the new one. Profiles that
      appear or disappear are never reported. */
  predicate FirewallChangeReported(prevFw: FirewallState, fw: FirewallState, c: SettingsChange) {
    && c.FirewallChanged?
    && c.profile in fw && c.profile in prevFw
    && prevFw[c.profile] != JNull
    && prevFw[c.profile] != fw[c.profile]
    && c.before == prevFw[c.profile] && c.after == fw[c.profile]
  }

  /** The firewall loop of `_monitor_loop`. */
  method CompareFirewall(prevFw: FirewallState, fw: FirewallState) returns (changes: seq<SettingsChange>)
    ensures forall c :: c in changes <==> FirewallChangeReported(prevFw, fw, c)
    ensures NoDuplicates(changes)
  {
    changes := [];
    var todo := fw.Keys;
    while todo != {}
      invariant todo <= fw.Keys
      invariant forall c :: c in changes <==> FirewallChangeReported(prevFw, fw, c) && c.profile !in todo
      invariant NoDuplicates(changes)
    {
      var profile :| profile in todo;
      var status := fw[profile];
      // `prev_fw.get(profile)` is None both for a missing profile and a stored None.
      if profile in prevFw && prevFw[profile] != JNull && prevFw[profile] != status {
        changes := changes + [FirewallChanged(profile, prevFw[profile], status)];
      }
      todo := todo - {profile};
    }
  }

  /** The Defender comparison: reported only when both readings exist and differ. */
  function CompareDefender(prevDef: Option<bool>, def: Option<bool>): (r: Option<SettingsChange>)
    ensures r.Some? <==> prevDef.Some? && def.Some? && prevDef.value != def.value
    ensures r.Some? ==> r.value == DefenderChanged(prevDef.value, def.value)
  {
    if prevDef.Some? && def.Some? && prevDef.value != def.value
    then Some(DefenderChanged(prevDef.value, def.value))
    else None
  }

  /** `str()` of a Python bool. */
  function BoolStr(b: bool): string {
    if b then "True" else "False"
  }

  /** The detail text for a change whose values print as themselves: it opens
      with the setting's wording, names the profile, says which value it changed
      from, and ends with the new value. */
  function Detail(c: SettingsChange): (r: string)
    requires c.FirewallChanged? ==> Hashable(c.profile) && Hashable(c.before) && Hashable(c.after)
    ensures c.FirewallChanged? ==> "Firewall profile '" <= r
    ensures c.DefenderChanged? ==> "Defender RealTimeProtection" <= r
    ensures c.FirewallChanged? ==> Occurs(ScalarStr(c.profile), r)
    ensures var first := if c.FirewallChanged? then ScalarStr(c.before) else BoolStr(c.wasOn);
      Occurs(" changed from " + first + " to ", r)
    ensures var last := if c.FirewallChanged? then ScalarStr(c.after) else BoolStr(c.isOn);
      |last| <= |r| && r[|r| - |last|..] == last
  {
    match c
    case FirewallChanged(p, b, a) => ChangeText("Firewall profile '", ScalarStr(p), "'", ScalarStr(b), ScalarStr(a))
    case DefenderChanged(b, a) => ChangeText("Defender RealTimeProtection", "", "", BoolStr(b), BoolStr(a))
  }

  /** `lead`, the subject, `close`, then " changed from <first> to <last>". */
  function ChangeText(lead: string, subject: string, close: string, first: string, last: string): (r: string)
    ensures lead <= r && Occurs(subject, r)
    ensures Occurs(" changed from " + first + " to ", r)
    ensures |last| <= |r| && r[|r| - |last|..] == last
  {
    var mid := " changed from " + first + " to ";
    var r := lead + subject + close + mid + last;
    OccursBetween(lead, subject, close + mid + last);
    assert r == lead + subject + (close + mid + last);
    OccursBetween(lead + subject + close, mid, last);
    r
  }

  const SettingsWords: seq<string> := ["danger", "disabled", "unauthorized", "vulnerable"]

  /** The text handed to the analyser: the detail intact after a fixed tag. */
  function SettingsPrompt(detail: string): (r: string)
    ensures |r| == |detail| + 17 && r[17..] == detail
  {
    "SETTINGS_CHANGE: " + detail
  }

  /** `_flag_settings_change`, after the analyser answered `answer`: flagged
      iff one of the four words occurs in the lowered answer. */
  function FlagSettingsChange(answer: string): (flagged: bool)
    ensures flagged <==> exists i :: 0 <= i < |SettingsWords| && Occurs(SettingsWords[i], Lower(answer))
  {
    KeywordAlert(answer, SettingsWords)
  }

  /** The state `_monitor_loop` carries from one tick to the next. */
  class SettingsWatch {
    var prevFw: FirewallState
    var prevDef: Option<bool>
    var flagged: seq<SettingsChange>

    constructor (fwOut: Loaded, defOut: Loaded)
      ensures FirewallReading(fwOut, prevFw) && prevDef == DefenderRealtimeState(defOut)
      ensures flagged == []
    {
      var fw := GetFirewallState(fwOut);
      prevFw := fw;
      prevDef := DefenderRealtimeState(defOut);
      flagged := [];
    }

    /** One tick: read both settings, report the differences, and make the new
        readings the baseline whatever they are, `{}` and None included. */
    method Tick(fwOut: Loaded, defOut: Loaded)
      modifies this
      ensures FirewallReading(fwOut, prevFw) && prevDef == DefenderRealtimeState(defOut)
      ensures exists fwChanges ::
        && NoDuplicates(fwChanges)
        && (forall c :: c in fwChanges <==> FirewallChangeReported(old(prevFw), prevFw, c))
        && flagged == old(flagged) + fwChanges +
             match CompareDefender(old(prevDef), prevDef) case Some(c) => [c] case None => []
    {
      var fw := GetFirewallState(fwOut);
      var defState := DefenderRealtimeState(defOut);
      var fwChanges := CompareFirewall(prevFw, fw);
      flagged := flagged + fwChanges;
      match CompareDefender(prevDef, defState) {
        case Some(c) => flagged := flagged + [c];
        case None =>
      }
      prevFw := fw;
      prevDef := defState;
    }
  }
}

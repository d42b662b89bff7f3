/** String helpers shared by every monitor: Python's `str.lower()`, `str.strip()`,
    the `in` substring test, `str(int)`, `" ".join(...)`, and the one keyword test
    that every monitor applies to the analyser's answer. */
module Text {

  /** `str.lower()`, restricted to ASCII: 'A'..'Z' become 'a'..'z', every other
      character is kept. */
  function LowerChar(c: char): char {
    if 'A' <= c <= 'Z' then (c as int + 32) as char else c
  }

  function Lower(s: string): (r: string)
    ensures |r| == |s|
    ensures forall i :: 0 <= i < |s| ==> r[i] == LowerChar(s[i])
  {
    seq(|s|, i requires 0 <= i < |s| => LowerChar(s[i]))
  }

  /** Lowering is idempotent: lowering an already lowered text changes nothing. */
  lemma LowerIdempotent(s: string)
    ensures Lower(Lower(s)) == Lower(s)
  {
    assert forall i :: 0 <= i < |s| ==> LowerChar(LowerChar(s[i])) == LowerChar(s[i]);
  }

  /** Lowering works character by character, so it commutes with concatenation. */
  lemma LowerConcat(a: string, b: string)
    ensures Lower(a + b) == Lower(a) + Lower(b)
  {
  }

  /** The characters for which Python's `str.isspace()` holds (the complete list). */
  predicate IsSpace(c: char) {
    c == ' ' || c == '\t' || c == '\n' || c == '\r' || c == '\U{0B}' || c == '\U{0C}'
    || ('\U{1C}' <= c <= '\U{1F}')
    || c == '\U{85}' || c == '\U{A0}' || c == '\U{1680}'
    || ('\U{2000}' <= c <= '\U{200A}')
    || c == '\U{2028}' || c == '\U{2029}' || c == '\U{202F}' || c == '\U{205F}' || c == '\U{3000}'
  }

  predicate AllSpace(s: string) {
    forall i :: 0 <= i < |s| ==> IsSpace(s[i])
  }

  /** The end of the run of whitespace that starts at position `i`. */
  function SpaceRunEnd(s: string, i: nat): (k: nat)
    requires i <= |s|
    ensures i <= k <= |s|
    ensures forall j :: i <= j < k ==> IsSpace(s[j])
    ensures k == |s| || !IsSpace(s[k])
    decreases |s| - i
  {
    if i < |s| && IsSpace(s[i]) then SpaceRunEnd(s, i + 1) else i
  }

  /** The start of the run of whitespace that ends just before position `e`. */
  function SpaceRunStart(s: string, e: nat): (k: nat)
    requires e <= |s|
    ensures k <= e
    ensures forall j :: k <= j < e ==> IsSpace(s[j])
    ensures k == 0 || !IsSpace(s[k - 1])
  {
    if e > 0 && IsSpace(s[e - 1]) then SpaceRunStart(s, e - 1) else e
  }

  /** Drops leading whitespace: the result is the suffix of `s` that starts at the
      first non-whitespace character. */
  function TrimStart(s: string): (r: string)
    ensures |r| <= |s| && r == s[|s| - |r|..]
    ensures AllSpace(s[..|s| - |r|])
    ensures r == [] || !IsSpace(r[0])
  {
    var k := SpaceRunEnd(s, 0);
    var front := s[..k];
    assert forall j :: 0 <= j < k ==> front[j] == s[j];
    s[k..]
  }

  /** Drops trailing whitespace: the result is the prefix of `s` that ends at the
      last non-whitespace character. */
  function TrimEnd(s: string): (r: string)
    ensures |r| <= |s| && r == s[..|r|]
    ensures AllSpace(s[|r|..])
    ensures r == [] || !IsSpace(r[|r| - 1])
  {
    var k := SpaceRunStart(s, |s|);
    var back := s[k..];
    assert forall j :: 0 <= j < |back| ==> back[j] == s[k + j];
    s[..k]
  }

  /** `r` is what is left of `s` once the whitespace `s[..i]` in front and the
      whitespace after `i + |r|` are cut off. */
  predicate CutFrom(s: string, r: string, i: int) {
    0 <= i <= |s| - |r| && s[i..i + |r|] == r && AllSpace(s[..i]) && AllSpace(s[i + |r|..])
  }

  /** `str.strip()`: the longest middle part of `s` that neither starts nor ends with
      whitespace; everything cut off on either side is whitespace. */
  function Strip(s: string): (r: string)
    ensures |r| <= |s|
    ensures exists i :: CutFrom(s, r, i)
    ensures r == [] || (!IsSpace(r[0]) && !IsSpace(r[|r| - 1]))
  {
    var t := TrimStart(s);
    var r := TrimEnd(t);
    CutTwice(s, t, r);
    r
  }

  /** Cutting whitespace off the front and then off the back leaves a middle
      part with only whitespace around it. */
  lemma CutTwice(s: string, t: string, r: string)
    requires |t| <= |s| && t == s[|s| - |t|..] && AllSpace(s[..|s| - |t|])
    requires |r| <= |t| && r == t[..|r|] && AllSpace(t[|r|..])
    ensures CutFrom(s, r, |s| - |t|)
  {
    var i := |s| - |t|;
    forall j | 0 <= j < |r| ensures r[j] == s[i + j] {
      assert r[j] == t[j] == s[i + j];
    }
    assert r == s[i..i + |r|];
    var back := s[i + |r|..];
    forall j | 0 <= j < |back| ensures IsSpace(back[j]) {
      assert back[j] == t[|r| + j] == t[|r|..][j];
    }
  }

  /** Stripping gives the empty string exactly when the input is all whitespace. */
  lemma StripEmptyIff(s: string)
    ensures Strip(s) == [] <==> AllSpace(s)
  {
    var r := Strip(s);
    var i :| CutFrom(s, r, i);
    if r == [] {
      forall k | 0 <= k < |s| ensures IsSpace(s[k]) {
        if k < i { assert s[k] == s[..i][k]; } else { assert s[k] == s[i..][k - i]; }
      }
    } else {
      assert s[i] == r[0];
    }
  }

  /** Stripping is idempotent. */
  lemma StripIdempotent(s: string)
    ensures Strip(Strip(s)) == Strip(s)
  {
    var r := Strip(s);
    StripNoEdges(r);
  }

  /** A text that neither starts nor ends with whitespace is left as it is. */
  lemma StripNoEdges(s: string)
    requires s == [] || (!IsSpace(s[0]) && !IsSpace(s[|s| - 1]))
    ensures Strip(s) == s
  {
    assert TrimStart(s) == s;
    assert TrimEnd(s) == s;
  }

  /** `sub` occurs in `s` starting at position `i`. */
  predicate OccursAt(sub: string, s: string, i: int) {
    0 <= i <= |s| - |sub| && s[i..i + |sub|] == sub
  }

  /** `sub in s` for Python strings: `sub` occurs as a contiguous part of `s`. */
  ghost predicate Occurs(sub: string, s: string) {
    exists i :: OccursAt(sub, s, i)
  }

  /** An occurrence in a non-empty text is either at its front or in its tail. */
  lemma OccursFrontOrTail(sub: string, s: string)
    requires s != []
    ensures Occurs(sub, s) <==> OccursAt(sub, s, 0) || Occurs(sub, s[1..])
  {
    forall i | 1 <= i ensures OccursAt(sub, s, i) <==> OccursAt(sub, s[1..], i - 1) {
      if 0 <= i - 1 <= |s[1..]| - |sub| {
        var a, b := s[1..][i - 1..i - 1 + |sub|], s[i..i + |sub|];
        forall m | 0 <= m < |sub| ensures a[m] == b[m] {
          assert s[1..][i - 1 + m] == s[i + m];
        }
        assert a == b;
      }
    }
    if Occurs(sub, s[1..]) {
      var j :| OccursAt(sub, s[1..], j);
      assert OccursAt(sub, s, j + 1);
    }
  }

  /** The substring test, computed by trying each start position in turn. */
  function Contains(s: string, sub: string): (b: bool)
    ensures b <==> Occurs(sub, s)
    decreases |s|
  {
    if |sub| > |s| then false
    else if s[..|sub|] == sub then assert OccursAt(sub, s, 0); true
    else
      OccursFrontOrTail(sub, s);
      Contains(s[1..], sub)
  }

  /** An occurrence is kept when text is added on either side. */
  lemma OccursInContext(sub: string, s: string, before: string, after: string)
    requires Occurs(sub, s)
    ensures Occurs(sub, before + s + after)
  {
    var i :| OccursAt(sub, s, i);
    var t := before + s + after;
    assert t[|before| + i..|before| + i + |sub|] == s[i..i + |sub|];
    assert OccursAt(sub, t, |before| + i);
  }

  /** A text occurs in anything built around it. */
  lemma OccursBetween(before: string, sub: string, after: string)
    ensures Occurs(sub, before + sub + after)
  {
    assert (before + sub + after)[|before|..|before| + |sub|] == sub;
    assert OccursAt(sub, before + sub + after, |before|);
  }

  /** `any(word in text for word in words)`, stopping at the first hit. */
  function MatchesAny(text: string, words: seq<string>): (b: bool)
    ensures b <==> exists i :: 0 <= i < |words| && Occurs(words[i], text)
  {
    if words == [] then false
    else if Contains(text, words[0]) then true
    else
      var rest := MatchesAny(text, words[1..]);
      assert forall i :: 1 <= i < |words| ==> words[1..][i - 1] == words[i];
      rest
  }

  /** The keyword rule every monitor applies to an analyser answer: lower-case the
      answer and alert when any of the monitor's keywords occurs in it. */
  predicate KeywordAlert(answer: string, words: seq<string>) {
    MatchesAny(Lower(answer), words)
  }

  /** The rule ignores case: an answer and its lower-cased form are judged alike. */
  lemma KeywordAlertIgnoresCase(answer: string, words: seq<string>)
    ensures KeywordAlert(Lower(answer), words) == KeywordAlert(answer, words)
  {
    LowerIdempotent(answer);
  }

  /** More text never withdraws an alert: an answer that alerts still alerts with
      anything written before or after it. */
  lemma {:induction false} KeywordAlertInContext(answer: string, words: seq<string>, before: string, after: string)
    requires KeywordAlert(answer, words)
    ensures KeywordAlert(before + answer + after, words)
  {
    var i :| 0 <= i < |words| && Occurs(words[i], Lower(answer));
    LowerConcat(before + answer, after);
    LowerConcat(before, answer);
    OccursInContext(words[i], Lower(answer), Lower(before), Lower(after));
  }

  /** A word that contains an upper-case ASCII letter can never match. */
  lemma UpperCaseWordNeverMatches(answer: string, w: string, k: nat)
    requires k < |w| && 'A' <= w[k] <= 'Z'
    ensures !KeywordAlert(answer, [w])
  {
    var t := Lower(answer);
    forall i | 0 <= i <= |t| - |w| ensures !OccursAt(w, t, i) {
      assert t[i..i + |w|][k] == LowerChar(answer[i + k]) != w[k];
    }
  }

  function DigitChar(d: nat): (c: char)
    requires d < 10
    ensures '0' <= c <= '9' && c as int - '0' as int == d
  {
    ('0' as int + d) as char
  }

  /** `str(n)` for a non-negative integer: its decimal digits, most significant first. */
  function NatToString(n: nat): (r: string)
    ensures |r| >= 1
    ensures forall i :: 0 <= i < |r| ==> '0' <= r[i] <= '9'
    ensures n >= 10 <==> r[0] != '0' && |r| >= 2
  {
    if n < 10 then [DigitChar(n)] else NatToString(n / 10) + [DigitChar(n % 10)]
  }

  /** Reading the digits back: the decimal value of a string of digits. */
  function DecimalValue(s: string): nat
    requires forall i :: 0 <= i < |s| ==> '0' <= s[i] <= '9'
  {
    if s == [] then 0 else 10 * DecimalValue(s[..|s| - 1]) + (s[|s| - 1] as int - '0' as int)
  }

  /** `str(n)` loses nothing: reading its digits back gives `n`. */
  lemma {:induction false} NatToStringRoundTrip(n: nat)
    ensures DecimalValue(NatToString(n)) == n
  {
    if n >= 10 {
      var q, d := n / 10, n % 10;
      var r := NatToString(n);
      assert r == NatToString(q) + [DigitChar(d)];
      assert r[..|r| - 1] == NatToString(q);
      NatToStringRoundTrip(q);
      assert n == 10 * q + d;
    }
  }

  /** `str(n)` for any integer, with a leading '-' for negative numbers. */
  function IntToString(n: int): (r: string)
    ensures |r| >= 1
    ensures n < 0 <==> r[0] == '-'
  {
    if n < 0 then "-" + NatToString(-n) else NatToString(n)
  }

  /** `sep.join(parts)`. */
  function Join(parts: seq<string>, sep: string): (r: string)
    ensures parts == [] ==> r == ""
    ensures |parts| == 1 ==> r == parts[0]
  {
    if parts == [] then ""
    else if |parts| == 1 then parts[0]
    else parts[0] + sep + Join(parts[1..], sep)
  }

  /** The joined text holds every part and one separator between each pair. */
  lemma {:induction false} JoinLength(parts: seq<string>, sep: string)
    requires parts != []
    ensures |Join(parts, sep)| == SumLengths(parts) + (|parts| - 1) * |sep|
  {
    if |parts| > 1 {
      JoinLength(parts[1..], sep);
    }
  }

  function SumLengths(parts: seq<string>): nat {
    if parts == [] then 0 else |parts[0]| + SumLengths(parts[1..])
  }

  /** Where part `k` starts in the joined text: after every earlier part and
      one separator for each of them. */
  function JoinOffset(parts: seq<string>, sep: string, k: nat): nat
    requires k <= |parts|
  {
    SumLengths(parts[..k]) + k * |sep|
  }

  /** Part `k` sits in the joined text at `JoinOffset`, and a separator follows
      it unless it is the last part. */
  lemma {:induction false} JoinContents(parts: seq<string>, sep: string, k: nat)
    requires k < |parts|
    ensures JoinOffset(parts, sep, k) + |parts[k]| <= |Join(parts, sep)|
    ensures Join(parts, sep)[JoinOffset(parts, sep, k)..JoinOffset(parts, sep, k) + |parts[k]|] == parts[k]
    ensures k < |parts| - 1 ==>
      && JoinOffset(parts, sep, k) + |parts[k]| + |sep| <= |Join(parts, sep)|
      && Join(parts, sep)[JoinOffset(parts, sep, k) + |parts[k]|..JoinOffset(parts, sep, k) + |parts[k]| + |sep|] == sep
    decreases k
  {
    var j := Join(parts, sep);
    if k == 0 {
      assert parts[..0] == [];
      if |parts| > 1 {
        assert j == parts[0] + sep + Join(parts[1..], sep);
        assert j[..|parts[0]|] == parts[0];
        assert j[|parts[0]|..|parts[0]| + |sep|] == sep;
      }
    } else {
      var h, rest := parts[0] + sep, parts[1..];
      assert j == h + Join(rest, sep);
      JoinContents(rest, sep, k - 1);
      assert parts[..k][1..] == rest[..k - 1];
      assert JoinOffset(parts, sep, k) == |h| + JoinOffset(rest, sep, k - 1);
      assert rest[k - 1] == parts[k];
      var at := JoinOffset(rest, sep, k - 1);
      ShiftedText(h, Join(rest, sep), at, at + |parts[k]|);
      if k < |parts| - 1 {
        ShiftedText(h, Join(rest, sep), at + |parts[k]|, at + |parts[k]| + |sep|);
      }
    }
  }

  /** A slice of a text with something put in front of it. */
  lemma ShiftedText(h: string, t: string, x: nat, y: nat)
    requires x <= y <= |t|
    ensures (h + t)[|h| + x..|h| + y] == t[x..y]
  {
  }
}

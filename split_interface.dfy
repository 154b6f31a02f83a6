/**
 * SplitInterfaceData: the leftmost match of the pattern `\D+(\d+)/(\d+)`
 * in an interface name gives its slot (first group) and port (second group).
 *
 * A match is described by four cut points `i < j < k`, `k + 1 < l`:
 * `s[i..j]` is the `\D+` run, `s[j..k]` the slot digits, `s[k]` the slash and
 * `s[k+1..l]` the port digits. RE2 returns the match that starts leftmost
 * and, at that start, prefers the longest port (the greedy `\d+`); the other
 * cuts are forced by the character classes.
 */
module SplitInterface {
  import opened Wrappers
  import opened Text

  /** The three results of the Go function: slot, port and error. */
  datatype SlotPort = SlotPort(slot: string, port: string, err: Option<string>)

  const InvalidFormat := "invalid interface format"

  datatype Span = Span(i: nat, j: nat, k: nat, l: nat)

  /** `m` cuts `s` into a match of `\D+(\d+)/(\d+)`. */
  predicate IsMatch(s: string, m: Span) {
    && m.i < m.j < m.k && m.k + 1 < m.l <= |s|
    && NoDigits(s[m.i..m.j])
    && AllDigits(s[m.j..m.k])
    && s[m.k] == '/'
    && AllDigits(s[m.k + 1..m.l])
  }

  /** The match RE2 tries at start `i` (a `\D` there), or None if none starts there. */
  function MatchAt(s: string, i: nat): (r: Option<Span>)
    requires i < |s|
  {
    if IsDigit(s[i]) then None
    else
      var j := SkipWhile(IsNonDigit, s, i);
      var k := SkipWhile(IsDigit, s, j);
      if j < k < |s| && s[k] == '/' then
        var l := SkipWhile(IsDigit, s, k + 1);
        if k + 1 < l then Some(Span(i, j, k, l)) else None
      else None
  }

  /** Tries every start from `i` on, leftmost first. */
  function FindFrom(s: string, i: nat): (r: Option<Span>)
    requires i <= |s|
    decreases |s| - i
  {
    if i == |s| then None
    else if MatchAt(s, i).Some? then MatchAt(s, i)
    else FindFrom(s, i + 1)
  }

  /** regexp.FindStringSubmatch of `\D+(\d+)/(\d+)`, as cut points. */
  function FindMatch(s: string): Option<Span> {
    FindFrom(s, 0)
  }

  /** SplitInterfaceData. */
  function SplitInterfaceData(interfaceStr: string): (r: SlotPort)
    ensures r.err.Some? ==> r == SlotPort("", "", Some(InvalidFormat))
    ensures r.err.None? ==> |r.slot| > 0 && AllDigits(r.slot) && |r.port| > 0 && AllDigits(r.port)
  {
    match FindMatch(interfaceStr)
    case None => SlotPort("", "", Some(InvalidFormat))
    case Some(m) =>
      FindFromSound(interfaceStr, 0);
      MatchAtSound(interfaceStr, m.i);
      SlotPort(interfaceStr[m.j..m.k], interfaceStr[m.k + 1..m.l], None)
  }

  // ---------------------------------------------------------------------
  // What a start position decides

  /** A match found at `i` is a match, with the longest port. */
  lemma MatchAtSound(s: string, i: nat)
    requires i < |s|
    ensures MatchAt(s, i).Some? ==>
      var m := MatchAt(s, i).value;
      IsMatch(s, m) && m.i == i && (m.l == |s| || !IsDigit(s[m.l]))
  {
  }

  /** Every match at start `i` has the slot RE2 reports and a port no longer than its. */
  lemma MatchAtComplete(s: string, m: Span)
    requires IsMatch(s, m)
    ensures MatchAt(s, m.i).Some?
    ensures var r := MatchAt(s, m.i).value;
      r.j == m.j && r.k == m.k && m.l <= r.l
  {
    assert !IsDigit(s[m.i]) by { assert s[m.i..m.j][0] == s[m.i]; }
    forall t | m.i <= t < m.j ensures IsNonDigit(s[t]) {
      assert s[m.i..m.j][t - m.i] == s[t];
    }
    assert !IsNonDigit(s[m.j]) by { assert s[m.j..m.k][0] == s[m.j]; }
    SkipWhileExact(IsNonDigit, s, m.i, m.j);
    forall t | m.j <= t < m.k ensures IsDigit(s[t]) {
      assert s[m.j..m.k][t - m.j] == s[t];
    }
    SkipWhileExact(IsDigit, s, m.j, m.k);
    forall t | m.k + 1 <= t < m.l ensures IsDigit(s[t]) {
      assert s[m.k + 1..m.l][t - m.k - 1] == s[t];
    }
    SkipWhileCovers(IsDigit, s, m.k + 1, m.l);
  }

  lemma {:induction false} FindFromSound(s: string, i: nat)
    requires i <= |s|
    ensures FindFrom(s, i).Some? ==>
      var m := FindFrom(s, i).value;
      i <= m.i < |s| && MatchAt(s, m.i) == Some(m)
    decreases |s| - i
  {
    if i < |s| && MatchAt(s, i).None? {
      FindFromSound(s, i + 1);
    }
  }

  /** The search from `i` reaches any start at or after `i` where a match exists. */
  lemma {:induction false} FindFromLeftmost(s: string, i: nat, m: Span)
    requires i <= m.i
    requires IsMatch(s, m)
    ensures FindFrom(s, i).Some?
    ensures FindFrom(s, i).value.i <= m.i
    ensures FindFrom(s, i).value.i == m.i ==> FindFrom(s, i) == MatchAt(s, m.i)
    decreases |s| - i
  {
    MatchAtComplete(s, m);
    if MatchAt(s, i).None? {
      FindFromLeftmost(s, i + 1, m);
    } else {
      MatchAtSound(s, i);
    }
  }

  // ---------------------------------------------------------------------
  // Properties of SplitInterfaceData

  /**
   * On success the slot and port are the groups of a match that starts no
   * later than any other match; at that start the port is the longest the
   * text allows.
   */
  lemma SplitIsLeftmostMatch(s: string, other: Span)
    requires IsMatch(s, other)
    ensures SplitInterfaceData(s).err.None?
    ensures var m := FindMatch(s).value;
      && IsMatch(s, m) && m.i <= other.i
      && SplitInterfaceData(s) == SlotPort(s[m.j..m.k], s[m.k + 1..m.l], None)
      && (m.i == other.i ==> m.j == other.j && m.k == other.k && other.l <= m.l)
  {
    FindFromLeftmost(s, 0, other);
    FindFromSound(s, 0);
    var m := FindMatch(s).value;
    MatchAtSound(s, m.i);
    if m.i == other.i {
      MatchAtComplete(s, other);
    }
  }

  /** The error comes back exactly when no part of the text matches. */
  lemma SplitFailsOnlyWithoutMatch(s: string)
    ensures SplitInterfaceData(s).err.Some? <==> FindMatch(s).None?
    ensures FindMatch(s).Some? ==> IsMatch(s, FindMatch(s).value)
  {
    FindFromSound(s, 0);
    if FindMatch(s).Some? {
      MatchAtSound(s, FindMatch(s).value.i);
    }
  }

  /** When a match exists anywhere, the split succeeds. */
  lemma SplitSucceedsOnMatch(s: string, m: Span)
    requires IsMatch(s, m)
    ensures SplitInterfaceData(s).err.None?
  {
    FindFromLeftmost(s, 0, m);
  }

  /**
   * Composing a name: a non-empty prefix without digits, then slot digits,
   * a slash and port digits, splits back into that slot and port.
   */
  lemma SplitComposed(p: string, a: string, b: string)
    requires |p| > 0 && NoDigits(p)
    requires |a| > 0 && AllDigits(a)
    requires |b| > 0 && AllDigits(b)
    ensures SplitInterfaceData(p + a + "/" + b) == SlotPort(a, b, None)
  {
    var s := p + a + "/" + b;
    var m := Span(0, |p|, |p| + |a|, |s|);
    assert s[0..|p|] == p;
    assert s[|p|..|p| + |a|] == a;
    assert s[|p| + |a| + 1..|s|] == b;
    assert IsMatch(s, m);
    SplitIsLeftmostMatch(s, m);
    var r := FindMatch(s).value;
    assert r.i == 0;
    assert r.j == m.j && r.k == m.k && r.l == |s|;
  }

  /** Only the first `digits/digits` group counts: "Gi1/0/3" gives slot 1, port 0. */
  lemma SplitThreeLevelName()
    ensures SplitInterfaceData("Gi1/0/3") == SlotPort("1", "0", None)
  {
    hide SkipWhile, FindFrom, MatchAt, SplitInterfaceData;
    var s := "Gi1/0/3";
    var m := Span(0, 2, 3, 5);
    assert IsMatch(s, m);
    SplitIsLeftmostMatch(s, m);
    SplitFailsOnlyWithoutMatch(s);
    var r := FindMatch(s).value;
    RunSlice(IsDigit, s, r.k + 1, r.l);
    assert !IsDigit(s[5]);
    assert r.l == 5;
    assert s[2..3] == "1" && s[4..5] == "0";
  }

  /** With no `\D` before the digits, "1/2" does not match. */
  lemma SplitNeedsPrefix()
    ensures SplitInterfaceData("1/2").err == Some(InvalidFormat)
  {
  }

  /** A name without a slash, such as "mgmt0", does not match. */
  lemma SplitNeedsSlash()
    ensures SplitInterfaceData("mgmt0").err == Some(InvalidFormat)
  {
  }
}

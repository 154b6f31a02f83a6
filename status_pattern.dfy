/**
 * The `show interface status` line pattern
 *
 *   ^(?P<Interface>(GigabitEthernet|TenGigabitEthernet|Eth|Ge|Gi)\d+/\d+)\s+
 *   (?P<Description>.*?)\s+
 *   (?P<Status>up|down|administratively down|admin down|connected|disabled)\s+
 *   (?P<VLAN>\d+)\s+(?P<Duplex>full|half|auto)\s+(?P<Speed>\S+)\s+(?P<Type>.*)$
 *
 * as a relation `IsMatch` between a line and the cut points of a match, and
 * a recogniser `FindMatch` that picks the match RE2's leftmost-first rule
 * reports. Every group but Description is pinned down by the character
 * classes around it; what is left to choose is how much of the first `\s+`
 * to take (greedy: as much as possible), where the lazy Description ends
 * (as early as possible) and how much of the last `\s+` to take (greedy).
 */
module StatusPattern {
  import opened Wrappers
  import opened Text

  const Kinds: seq<string> := ["GigabitEthernet", "TenGigabitEthernet", "Eth", "Ge", "Gi"]
  const StatusWords: seq<string> :=
    ["up", "down", "administratively down", "admin down", "connected", "disabled"]
  const DuplexWords: seq<string> := ["full", "half", "auto"]

  /** The named groups of a match. */
  datatype StatusCaptures = StatusCaptures(
    Interface: string, Description: string, Status: string, VLAN: string,
    Duplex: string, Speed: string, Type: string)

  /** The interface name: the kind ends at `n`, the slash is at `s`, the port digits end at `a`. */
  datatype Head = Head(n: nat, s: nat, a: nat)

  /**
   * The columns after Description: the status word is `[c, d)`, the VLAN
   * `[e, f)`, the duplex word `[g, h)`, the speed `[i, j)` and Type starts at
   * `k`; the gaps between them are the `\s+` runs.
   */
  datatype Tail = Tail(c: nat, d: nat, e: nat, f: nat, g: nat, h: nat, i: nat, j: nat, k: nat)

  /** A whole match: the first `\s+` is `[head.a, w)` and Description is `[w, x)`. */
  datatype Cut = Cut(head: Head, w: nat, x: nat, tail: Tail)

  predicate IsHead(line: string, hd: Head) {
    && 0 < hd.n < hd.s && hd.s + 1 < hd.a <= |line|
    && line[..hd.n] in Kinds
    && Run(IsDigit, line, hd.n, hd.s)
    && line[hd.s] == '/'
    && Run(IsDigit, line, hd.s + 1, hd.a)
  }

  /** `t` cuts what follows a Description ending at `x` into the remaining groups. */
  predicate IsTail(line: string, x: nat, t: Tail) {
    && x < t.c < t.d < t.e < t.f < t.g < t.h < t.i < t.j < t.k <= |line|
    && Run(IsSpace, line, x, t.c)
    && line[t.c..t.d] in StatusWords
    && Run(IsSpace, line, t.d, t.e)
    && Run(IsDigit, line, t.e, t.f)
    && Run(IsSpace, line, t.f, t.g)
    && line[t.g..t.h] in DuplexWords
    && Run(IsSpace, line, t.h, t.i)
    && Run(IsNonSpace, line, t.i, t.j)
    && Run(IsSpace, line, t.j, t.k)
    && Run(IsNotNewline, line, t.k, |line|)
  }

  /** The pattern matches `line` with the groups `m` marks. */
  predicate IsMatch(line: string, m: Cut) {
    && IsHead(line, m.head)
    && m.head.a < m.w <= m.x
    && Run(IsSpace, line, m.head.a, m.w)
    && Run(IsNotNewline, line, m.w, m.x)
    && IsTail(line, m.x, m.tail)
  }

  function CapturesOf(line: string, m: Cut): StatusCaptures
    requires IsMatch(line, m)
  {
    StatusCaptures(
      line[..m.head.a], line[m.w..m.x], line[m.tail.c..m.tail.d], line[m.tail.e..m.tail.f],
      line[m.tail.g..m.tail.h], line[m.tail.i..m.tail.j], line[m.tail.k..])
  }

  /**
   * The order in which RE2 tries the matches, as far as it matters: the
   * longer first `\s+`, then the shorter Description, then the longer last
   * `\s+`. `Prefers(p, q)` says `p` comes no later than `q`.
   */
  predicate Prefers(p: Cut, q: Cut) {
    && p.head == q.head
    && q.w <= p.w
    && (q.w == p.w ==> p.x <= q.x)
    && (q.w == p.w && p.x == q.x ==>
          && p.tail.c == q.tail.c && p.tail.d == q.tail.d && p.tail.e == q.tail.e
          && p.tail.f == q.tail.f && p.tail.g == q.tail.g && p.tail.h == q.tail.h
          && p.tail.i == q.tail.i && p.tail.j == q.tail.j && q.tail.k <= p.tail.k)
  }

  // ---------------------------------------------------------------------
  // The recogniser

  /** The first kind, in the order written, that the line starts with and that a digit follows. */
  function FirstKind(line: string, ks: seq<string>): (r: Option<string>)
    ensures r.Some? ==>
      r.value in ks && PrefixAt(line, 0, r.value) && |r.value| < |line| && IsDigit(line[|r.value|])
    ensures r.None? ==> forall u :: u in ks && PrefixAt(line, 0, u) && |u| < |line| ==> !IsDigit(line[|u|])
  {
    if ks == [] then None
    else if PrefixAt(line, 0, ks[0]) && |ks[0]| < |line| && IsDigit(line[|ks[0]|]) then Some(ks[0])
    else FirstKind(line, ks[1..])
  }

  function FindHead(line: string): Option<Head> {
    match FirstKind(line, Kinds)
    case None => None
    case Some(kind) =>
      var n := |kind|;
      var s := SkipWhile(IsDigit, line, n);
      if s == n || s == |line| || line[s] != '/' then None
      else
        var a := SkipWhile(IsDigit, line, s + 1);
        if a == s + 1 then None else Some(Head(n, s, a))
  }

  /** The columns after a Description that ends at `x`, if they match. */
  function TailAt(line: string, x: nat): Option<Tail>
    requires x <= |line|
  {
    var c := SkipWhile(IsSpace, line, x);
    if c == x then None else StatusOn(line, c)
  }

  function StatusOn(line: string, c: nat): Option<Tail>
    requires c <= |line|
  {
    match FirstWord(line, c, StatusWords)
    case None => None
    case Some(st) => VlanOn(line, c, c + |st|)
  }

  /** The columns from the VLAN on, once the status word is `[c, d)`. */
  function VlanOn(line: string, c: nat, d: nat): Option<Tail>
    requires d <= |line|
  {
    var e := SkipWhile(IsSpace, line, d);
    if e == d then None else
    var f := SkipWhile(IsDigit, line, e);
    if f == e then None else
    var g := SkipWhile(IsSpace, line, f);
    if g == f then None else DuplexOn(line, c, d, e, f, g)
  }

  function DuplexOn(line: string, c: nat, d: nat, e: nat, f: nat, g: nat): Option<Tail>
    requires g <= |line|
  {
    match FirstWord(line, g, DuplexWords)
    case None => None
    case Some(du) => SpeedOn(line, c, d, e, f, g, g + |du|)
  }

  /** The speed and Type, once the duplex word is `[g, h)`. */
  function SpeedOn(line: string, c: nat, d: nat, e: nat, f: nat, g: nat, h: nat): Option<Tail>
    requires h <= |line|
  {
    var i := SkipWhile(IsSpace, line, h);
    if i == h then None else
    var j := SkipWhile(IsNonSpace, line, i);
    if j == i then None else
    var k := SkipWhile(IsSpace, line, j);
    if k == j || !NoNewline(line[k..]) then None else Some(Tail(c, d, e, f, g, h, i, j, k))
  }

  /** The columns after a Description that ends at `x`; none past the end of the line. */
  function Columns(line: string, x: nat): Option<Tail> {
    if x <= |line| then TailAt(line, x) else None
  }

  /**
   * A lazy `.*?` starting at `x`: the first end, trying left to right and
   * never crossing a line feed, at which the `rest` of the pattern matches,
   * with what it matched.
   */
  function LazyEnd(rest: (string, nat) -> Option<Tail>, line: string, x: nat): Option<(nat, Tail)>
    requires x <= |line|
    decreases |line| - x
  {
    match rest(line, x)
    case Some(t) => Some((x, t))
    case None =>
      if x == |line| || line[x] == '\n' then None
      else LazyEnd(rest, line, x + 1)
  }

  /** The lazy Description: the first end from `x` on where the columns after it match, and those columns. */
  function DescriptionEnd(line: string, x: nat): Option<(nat, Tail)>
    requires x <= |line|
  {
    LazyEnd(Columns, line, x)
  }

  /**
   * The match RE2 reports. With the whole first whitespace run taken, the
   * shortest Description that lets the columns match; failing that, the run
   * less one character and an empty Description (shorter runs add nothing).
   */
  function FindMatch(line: string): Option<Cut> {
    match FindHead(line)
    case None => None
    case Some(hd) =>
      FindHeadSound(line);
      var w := SkipWhile(IsSpace, line, hd.a);
      if w == hd.a then None else MatchAfterRun(line, hd, w)
  }

  /** `FindMatch` once the interface is `hd` and the whole first run ends at `w`. */
  function MatchAfterRun(line: string, hd: Head, w: nat): Option<Cut>
    requires hd.a < w <= |line|
  {
    match DescriptionEnd(line, w)
    case Some((x, t)) => Some(Cut(hd, w, x, t))
    case None => EmptyDescription(line, hd, w)
  }

  /** The run less one character, and an empty Description. */
  function EmptyDescription(line: string, hd: Head, w: nat): Option<Cut>
    requires hd.a < w <= |line|
  {
    if w - hd.a >= 2 && TailAt(line, w - 1).Some?
    then Some(Cut(hd, w - 1, w - 1, TailAt(line, w - 1).value))
    else None
  }

  /** showIntStatus.FindStringSubmatch, as its named groups. */
  function ShowIntStatus(line: string): Option<StatusCaptures> {
    FindMatchSound(line);
    match FindMatch(line)
    case None => None
    case Some(m) => Some(CapturesOf(line, m))
  }

  /**
   * What a match gives: Interface is a prefix of the line, Status and Duplex
   * come from their word lists, VLAN is a non-empty digit string, Speed is
   * non-empty without white space, and Description and Type hold no line feed.
   */
  lemma ShowIntStatusGroups(line: string)
    ensures var r := ShowIntStatus(line); r.Some? ==>
      && |r.value.Interface| > 0 && r.value.Interface <= line
      && NoNewline(r.value.Description)
      && r.value.Status in StatusWords
      && |r.value.VLAN| > 0 && AllDigits(r.value.VLAN)
      && r.value.Duplex in DuplexWords
      && |r.value.Speed| > 0 && NoSpace(r.value.Speed)
      && NoNewline(r.value.Type)
      && |r.value.Type| <= |line| && line[|line| - |r.value.Type|..] == r.value.Type
      && (r.value.Type == [] || IsNonSpace(r.value.Type[0]))
  {
    hide FindMatch, CapturesOf, IsMatch, NoNewline, AllDigits, NoSpace;
    FoundCaptures(line);
  }

  // ---------------------------------------------------------------------
  // The interface name

  lemma KindsHaveNoDigits()
    ensures forall u :: u in Kinds ==> |u| > 0 && NoDigits(u)
  {
    assert NoDigits("GigabitEthernet");
    assert NoDigits("TenGigabitEthernet");
    assert NoDigits("Eth") && NoDigits("Ge") && NoDigits("Gi");
  }

  /** At most one kind is followed by a digit, so the alternation's order does not matter. */
  lemma KindUnique(line: string, kind: string)
    requires kind in Kinds && PrefixAt(line, 0, kind) && |kind| < |line| && IsDigit(line[|kind|])
    ensures FirstKind(line, Kinds) == Some(kind)
  {
    KindsHaveNoDigits();
    DigitAfterUnique(line, FirstKind(line, Kinds).value, kind);
  }

  /** Two digit-free words the line starts with, each followed by a digit, are the same word. */
  lemma DigitAfterUnique(line: string, u: string, v: string)
    requires NoDigits(u) && NoDigits(v)
    requires PrefixAt(line, 0, u) && |u| < |line| && IsDigit(line[|u|])
    requires PrefixAt(line, 0, v) && |v| < |line| && IsDigit(line[|v|])
    ensures u == v
  {
  }

  lemma FindHeadSound(line: string)
    ensures FindHead(line).Some? ==>
      var hd := FindHead(line).value;
      IsHead(line, hd) && (hd.a == |line| || !IsDigit(line[hd.a]))
  {
  }

  /** The interface name is forced: any head whose port digits stop is the one found. */
  lemma FindHeadComplete(line: string, hd: Head)
    requires IsHead(line, hd) && (hd.a == |line| || !IsDigit(line[hd.a]))
    ensures FindHead(line) == Some(hd)
  {
    var kind := line[..hd.n];
    KindUnique(line, kind);
    SkipWhileExact(IsDigit, line, hd.n, hd.s);
    SkipWhileExact(IsDigit, line, hd.s + 1, hd.a);
  }

  // ---------------------------------------------------------------------
  // The columns after Description

  /** A status word is not empty and does not start with white space. */
  lemma StatusWordStart(u: string)
    requires u in StatusWords
    ensures |u| > 0 && IsNonSpace(u[0])
  {
  }

  lemma StatusWordsPrefixFree()
    ensures PrefixFree(StatusWords)
  {
    forall u, v | u in StatusWords && v in StatusWords && u != v ensures !(u <= v) {
      if u[0] != v[0] { NotPrefixAt(u, v, 0); }
      else if u[1] != v[1] { NotPrefixAt(u, v, 1); }
      else { NotPrefixAt(u, v, 5); }
    }
  }

  /** A duplex word is not empty and does not start with white space. */
  lemma DuplexWordStart(u: string)
    requires u in DuplexWords
    ensures |u| > 0 && IsNonSpace(u[0])
  {
  }

  lemma DuplexWordsPrefixFree()
    ensures PrefixFree(DuplexWords)
  {
  }

  lemma SpeedOnSound(line: string, x: nat, c: nat, d: nat, e: nat, f: nat, g: nat, h: nat)
    requires x < c < d < e < f < g < h <= |line|
    requires Run(IsSpace, line, x, c) && line[c..d] in StatusWords
    requires Run(IsSpace, line, d, e) && Run(IsDigit, line, e, f) && Run(IsSpace, line, f, g)
    requires line[g..h] in DuplexWords
    ensures SpeedOn(line, c, d, e, f, g, h).Some? ==>
      var t := SpeedOn(line, c, d, e, f, g, h).value;
      IsTail(line, x, t) && (t.k == |line| || !IsSpace(line[t.k]))
  {
    if SpeedOn(line, c, d, e, f, g, h).Some? {
      var t := SpeedOn(line, c, d, e, f, g, h).value;
      RunSlice(IsNotNewline, line, t.k, |line|);
    }
  }

  lemma DuplexOnSound(line: string, x: nat, c: nat, d: nat, e: nat, f: nat, g: nat)
    requires x < c < d < e < f < g <= |line|
    requires Run(IsSpace, line, x, c) && line[c..d] in StatusWords
    requires Run(IsSpace, line, d, e) && Run(IsDigit, line, e, f) && Run(IsSpace, line, f, g)
    ensures DuplexOn(line, c, d, e, f, g).Some? ==>
      var t := DuplexOn(line, c, d, e, f, g).value;
      IsTail(line, x, t) && (t.k == |line| || !IsSpace(line[t.k]))
  {
    hide SpeedOn;
    var du := FirstWord(line, g, DuplexWords);
    if du.Some? {
      SpeedOnSound(line, x, c, d, e, f, g, g + |du.value|);
    }
  }

  lemma VlanOnSound(line: string, x: nat, c: nat, d: nat)
    requires x < c < d <= |line|
    requires Run(IsSpace, line, x, c) && line[c..d] in StatusWords
    ensures VlanOn(line, c, d).Some? ==>
      var t := VlanOn(line, c, d).value;
      IsTail(line, x, t) && (t.k == |line| || !IsSpace(line[t.k]))
  {
    hide DuplexOn;
    var e := SkipWhile(IsSpace, line, d);
    var f := SkipWhile(IsDigit, line, e);
    var g := SkipWhile(IsSpace, line, f);
    if e > d && f > e && g > f {
      DuplexOnSound(line, x, c, d, e, f, g);
    }
  }

  lemma StatusOnSound(line: string, x: nat, c: nat)
    requires x < c <= |line| && Run(IsSpace, line, x, c)
    ensures StatusOn(line, c).Some? ==>
      var t := StatusOn(line, c).value;
      IsTail(line, x, t) && (t.k == |line| || !IsSpace(line[t.k]))
  {
    hide VlanOn;
    var st := FirstWord(line, c, StatusWords);
    if st.Some? {
      var d := c + |st.value|;
      StatusWordStart(st.value);
      assert line[c..d] == st.value;
      VlanOnSound(line, x, c, d);
      assert StatusOn(line, c) == VlanOn(line, c, d);
    }
  }

  /** Columns found after `x` are columns of the pattern, with the longest last `\s+`. */
  lemma TailSound(line: string, x: nat)
    requires x <= |line|
    ensures TailAt(line, x).Some? ==>
      var t := TailAt(line, x).value;
      IsTail(line, x, t) && (t.k == |line| || !IsSpace(line[t.k]))
  {
    hide StatusOn;
    var c := SkipWhile(IsSpace, line, x);
    if c > x {
      StatusOnSound(line, x, c);
    }
  }

  lemma SpeedOnComplete(line: string, x: nat, t: Tail)
    requires IsTail(line, x, t)
    ensures SpeedOn(line, t.c, t.d, t.e, t.f, t.g, t.h).Some?
    ensures var r := SpeedOn(line, t.c, t.d, t.e, t.f, t.g, t.h).value;
      && r.c == t.c && r.d == t.d && r.e == t.e && r.f == t.f && r.g == t.g
      && r.h == t.h && r.i == t.i && r.j == t.j && t.k <= r.k
  {
    SkipWhileExact(IsSpace, line, t.h, t.i);
    SkipWhileExact(IsNonSpace, line, t.i, t.j);
    SkipWhileCovers(IsSpace, line, t.j, t.k);
    var k := SkipWhile(IsSpace, line, t.j);
    RunSlice(IsNotNewline, line, k, |line|);
  }

  lemma DuplexOnComplete(line: string, x: nat, t: Tail)
    requires IsTail(line, x, t)
    ensures DuplexOn(line, t.c, t.d, t.e, t.f, t.g).Some?
    ensures var r := DuplexOn(line, t.c, t.d, t.e, t.f, t.g).value;
      && r.c == t.c && r.d == t.d && r.e == t.e && r.f == t.f && r.g == t.g
      && r.h == t.h && r.i == t.i && r.j == t.j && t.k <= r.k
  {
    hide SpeedOn;
    DuplexWordsPrefixFree();
    FirstWordUnique(line, t.g, DuplexWords, line[t.g..t.h]);
    SpeedOnComplete(line, x, t);
  }

  lemma VlanOnComplete(line: string, x: nat, t: Tail)
    requires IsTail(line, x, t)
    ensures VlanOn(line, t.c, t.d).Some?
    ensures var r := VlanOn(line, t.c, t.d).value;
      && r.c == t.c && r.d == t.d && r.e == t.e && r.f == t.f && r.g == t.g
      && r.h == t.h && r.i == t.i && r.j == t.j && t.k <= r.k
  {
    hide DuplexOn;
    assert IsNonSpace(line[t.g]) by {
      DuplexWordStart(line[t.g..t.h]);
      assert line[t.g] == line[t.g..t.h][0];
    }
    SkipWhileExact(IsSpace, line, t.d, t.e);
    SkipWhileExact(IsDigit, line, t.e, t.f);
    SkipWhileExact(IsSpace, line, t.f, t.g);
    DuplexOnComplete(line, x, t);
  }

  lemma StatusOnComplete(line: string, x: nat, t: Tail)
    requires IsTail(line, x, t)
    ensures StatusOn(line, t.c).Some?
    ensures var r := StatusOn(line, t.c).value;
      && r.c == t.c && r.d == t.d && r.e == t.e && r.f == t.f && r.g == t.g
      && r.h == t.h && r.i == t.i && r.j == t.j && t.k <= r.k
  {
    hide VlanOn;
    StatusWordsPrefixFree();
    FirstWordUnique(line, t.c, StatusWords, line[t.c..t.d]);
    VlanOnComplete(line, x, t);
  }

  /** Any columns after `x` are found, up to how much of the last `\s+` they take. */
  lemma TailComplete(line: string, x: nat, t: Tail)
    requires IsTail(line, x, t)
    ensures TailAt(line, x).Some?
    ensures var r := TailAt(line, x).value;
      && r.c == t.c && r.d == t.d && r.e == t.e && r.f == t.f && r.g == t.g
      && r.h == t.h && r.i == t.i && r.j == t.j && t.k <= r.k
  {
    hide StatusOn;
    StatusWordStart(line[t.c..t.d]);
    assert line[t.c] == line[t.c..t.d][0];
    SkipWhileExact(IsSpace, line, x, t.c);
    StatusOnComplete(line, x, t);
  }

  /** Within one whitespace run, where Description ends does not change the columns found. */
  lemma TailShift(line: string, x: nat, y: nat)
    requires x <= |line| && x <= y < SkipWhile(IsSpace, line, x)
    ensures TailAt(line, x) == TailAt(line, y)
  {
    hide StatusOn;
    var c := SkipWhile(IsSpace, line, x);
    SkipWhileExact(IsSpace, line, y, c);
  }

  // ---------------------------------------------------------------------
  // The lazy Description

  lemma {:induction false} LazyEndSound(rest: (string, nat) -> Option<Tail>, line: string, x0: nat)
    requires x0 <= |line|
    ensures LazyEnd(rest, line, x0).Some? ==>
      var (x, t) := LazyEnd(rest, line, x0).value;
      && x0 <= x <= |line| && rest(line, x) == Some(t)
      && Run(IsNotNewline, line, x0, x)
      && forall y :: x0 <= y < x ==> rest(line, y).None?
    decreases |line| - x0
  {
    if rest(line, x0).None? && x0 < |line| && line[x0] != '\n' {
      LazyEndSound(rest, line, x0 + 1);
    }
  }

  lemma {:induction false} LazyEndComplete(rest: (string, nat) -> Option<Tail>, line: string, x0: nat, y: nat)
    requires x0 <= y <= |line|
    requires rest(line, y).Some? && Run(IsNotNewline, line, x0, y)
    ensures LazyEnd(rest, line, x0).Some? && LazyEnd(rest, line, x0).value.0 <= y
    decreases y - x0
  {
    if rest(line, x0).None? {
      LazyEndComplete(rest, line, x0 + 1, y);
    }
  }

  /** Description ends at the first place from `x0` on where the columns match, within the line. */
  lemma DescriptionEndSound(line: string, x0: nat)
    requires x0 <= |line|
    ensures DescriptionEnd(line, x0).Some? ==>
      var (x, t) := DescriptionEnd(line, x0).value;
      && x0 <= x <= |line| && TailAt(line, x) == Some(t)
      && Run(IsNotNewline, line, x0, x)
      && forall y :: x0 <= y < x ==> Columns(line, y).None?
  {
    LazyEndSound(Columns, line, x0);
    if DescriptionEnd(line, x0).Some? {
      var (x, t) := DescriptionEnd(line, x0).value;
      assert Columns(line, x) == Some(t);
    }
  }

  /** Any end of Description after which the columns match bounds the one found. */
  lemma DescriptionEndComplete(line: string, x0: nat, y: nat)
    requires x0 <= y <= |line|
    requires TailAt(line, y).Some? && Run(IsNotNewline, line, x0, y)
    ensures DescriptionEnd(line, x0).Some? && DescriptionEnd(line, x0).value.0 <= y
  {
    assert Columns(line, y).Some?;
    LazyEndComplete(Columns, line, x0, y);
  }

  // ---------------------------------------------------------------------
  // Soundness and preference

  /** What `FindMatch` returns is a match of the line. */
  lemma FindMatchSound(line: string)
    ensures FindMatch(line).Some? ==>
      var m := FindMatch(line).value;
      IsMatch(line, m) && (m.tail.k == |line| || IsNonSpace(line[m.tail.k]))
  {
    FindHeadSound(line);
    if FindHead(line).Some? {
      var hd := FindHead(line).value;
      var w := SkipWhile(IsSpace, line, hd.a);
      if w > hd.a {
        MatchAfterRunSound(line, hd, w);
      }
    }
  }

  /** Once the interface is `hd` and `[hd.a, w)` is white space, what is found is a match. */
  lemma MatchAfterRunSound(line: string, hd: Head, w: nat)
    requires IsHead(line, hd) && hd.a < w <= |line| && Run(IsSpace, line, hd.a, w)
    ensures MatchAfterRun(line, hd, w).Some? ==>
      var m := MatchAfterRun(line, hd, w).value;
      IsMatch(line, m) && (m.tail.k == |line| || IsNonSpace(line[m.tail.k]))
  {
    hide TailAt;
    match DescriptionEnd(line, w)
    case Some((x, t)) =>
      DescriptionEndSound(line, w);
      TailSound(line, x);
    case None =>
      if EmptyDescription(line, hd, w).Some? {
        TailSound(line, w - 1);
      }
  }

  /**
   * Whenever the line matches at all, `FindMatch` succeeds, and its match
   * comes no later than any other in RE2's order.
   */
  lemma FindMatchPreferred(line: string, q: Cut)
    requires IsMatch(line, q)
    ensures FindMatch(line).Some?
    ensures Prefers(FindMatch(line).value, q)
  {
    var hd := q.head;
    FindHeadComplete(line, hd);
    var w := SkipWhile(IsSpace, line, hd.a);
    SkipWhileCovers(IsSpace, line, hd.a, q.w);
    assert FindMatch(line) == MatchAfterRun(line, hd, w);
    if w <= q.x {
      PreferredDescriptionAfterRun(line, q, w);
    } else {
      PreferredDescriptionInRun(line, q, w);
    }
  }

  /** The case where `q`'s Description ends after the whole first run. */
  lemma PreferredDescriptionAfterRun(line: string, q: Cut, w: nat)
    requires IsMatch(line, q)
    requires q.head.a < q.w <= w <= q.x && w == SkipWhile(IsSpace, line, q.head.a)
    ensures MatchAfterRun(line, q.head, w).Some?
    ensures Prefers(MatchAfterRun(line, q.head, w).value, q)
  {
    TailComplete(line, q.x, q.tail);
    RunWithin(line, q.w, w, q.x);
    DescriptionEndComplete(line, w, q.x);
    DescriptionEndSound(line, w);
  }

  /** The case where `q`'s Description ends inside the first whitespace run. */
  lemma PreferredDescriptionInRun(line: string, q: Cut, w: nat)
    requires IsMatch(line, q)
    requires q.head.a < q.w <= q.x < w == SkipWhile(IsSpace, line, q.head.a)
    ensures MatchAfterRun(line, q.head, w).Some?
    ensures Prefers(MatchAfterRun(line, q.head, w).value, q)
  {
    TailComplete(line, q.x, q.tail);
    MatchInRun(line, q, w);
  }

  /** With Description ending inside the first run, either the whole run is taken or the run less one character, with `q`'s columns. */
  lemma MatchInRun(line: string, q: Cut, w: nat)
    requires q.head.a < q.w <= q.x < w <= |line| && w == SkipWhile(IsSpace, line, q.head.a)
    requires TailAt(line, q.x).Some?
    ensures var p := MatchAfterRun(line, q.head, w);
      && p.Some? && p.value.head == q.head
      && (p.value.w == w || (p.value.w == w - 1 && p.value.x == w - 1 && p.value.tail == TailAt(line, q.x).value))
  {
    hide TailAt;
    SkipWhileCovers(IsSpace, line, q.x, w);
    TailShift(line, q.x, w - 1);
    var hd := q.head;
    if DescriptionEnd(line, w).None? {
      assert w - hd.a >= 2 && TailAt(line, w - 1).Some?;
      assert MatchAfterRun(line, hd, w) == EmptyDescription(line, hd, w);
    }
  }

  lemma RunWithin(line: string, i: nat, j: nat, k: nat)
    requires i <= j <= k && Run(IsNotNewline, line, i, k)
    ensures Run(IsNotNewline, line, j, k)
  {
  }

  /** The groups of the match found, as `ShowIntStatus` promises them. */
  lemma FoundCaptures(line: string)
    ensures FindMatch(line).Some? ==> IsMatch(line, FindMatch(line).value)
    ensures FindMatch(line).Some? ==>
      var r := CapturesOf(line, FindMatch(line).value);
      && |r.Interface| > 0 && r.Interface <= line
      && NoNewline(r.Description)
      && r.Status in StatusWords
      && |r.VLAN| > 0 && AllDigits(r.VLAN)
      && r.Duplex in DuplexWords
      && |r.Speed| > 0 && NoSpace(r.Speed)
      && NoNewline(r.Type)
      && |r.Type| <= |line| && line[|line| - |r.Type|..] == r.Type
      && (r.Type == [] || IsNonSpace(r.Type[0]))
  {
    FindMatchSound(line);
    hide FindMatch;
    if FindMatch(line).Some? {
      var m := FindMatch(line).value;
      CapturesFacts(line, m);
      assert m.tail.k < |line| ==> line[m.tail.k..][0] == line[m.tail.k];
    }
  }

  lemma CapturesFacts(line: string, m: Cut)
    requires IsMatch(line, m)
    ensures var r := CapturesOf(line, m);
      && |r.Interface| > 0 && r.Interface <= line
      && NoNewline(r.Description)
      && r.Status in StatusWords
      && |r.VLAN| > 0 && AllDigits(r.VLAN)
      && r.Duplex in DuplexWords
      && |r.Speed| > 0 && NoSpace(r.Speed)
      && NoNewline(r.Type)
      && |r.Type| <= |line| && line[|line| - |r.Type|..] == r.Type
  {
    RunSlice(IsNotNewline, line, m.w, m.x);
    RunSlice(IsDigit, line, m.tail.e, m.tail.f);
    RunSlice(IsNonSpace, line, m.tail.i, m.tail.j);
    RunSlice(IsNotNewline, line, m.tail.k, |line|);
  }

  // ---------------------------------------------------------------------
  // What the reported groups are

  /**
   * Against any match of the line: the same Interface; and among the
   * matches that take the whole first whitespace run, the reported
   * Description is the shortest.
   */
  lemma ShowIntStatusAgainstMatch(line: string, q: Cut)
    requires IsMatch(line, q)
    ensures ShowIntStatus(line).Some?
    ensures ShowIntStatus(line).value.Interface == line[..q.head.a]
    ensures q.w == SkipWhile(IsSpace, line, q.head.a) ==>
      |ShowIntStatus(line).value.Description| <= q.x - q.w
  {
    FindMatchPreferred(line, q);
    FindMatchSound(line);
    var p := FindMatch(line).value;
    SkipWhileCovers(IsSpace, line, p.head.a, p.w);
  }

  /**
   * A match whose Description is one word, and whose Type does not start
   * with whitespace, is the match reported.
   */
  lemma OneWordDescription(line: string, m: Cut)
    requires IsMatch(line, m)
    requires m.w < m.x && Run(IsNonSpace, line, m.w, m.x)
    requires m.tail.k == |line| || IsNonSpace(line[m.tail.k])
    ensures FindMatch(line) == Some(m)
  {
    FindMatchPreferred(line, m);
    FindMatchSound(line);
    var p := FindMatch(line).value;
    SkipWhileExact(IsSpace, line, m.head.a, m.w);
    SkipWhileCovers(IsSpace, line, p.head.a, p.w);
    assert p.w == m.w;
    assert p.x == m.x by {
      assert p.x < p.tail.c && IsSpace(line[p.x]);
    }
    assert p.tail.k == m.tail.k;
    assert p.tail == m.tail;
  }

  /**
   * An interface name followed by another `/`, as in a three-level name such
   * as `Gi1/0/1`, never matches: the name must be followed by whitespace.
   */
  lemma SlashAfterNameNeverMatches(line: string, hd: Head)
    requires IsHead(line, hd) && hd.a < |line| && line[hd.a] == '/'
    ensures ShowIntStatus(line).None?
  {
    FindHeadComplete(line, hd);
    SkipWhileExact(IsSpace, line, hd.a, hd.a);
  }

  lemma ThreeLevelRow()
    ensures ShowIntStatus("Gi1/0/1 lan up 1 full auto 1G").None?
  {
    var line := "Gi1/0/1 lan up 1 full auto 1G";
    assert line[..2] == "Gi" by {
      assert line[0] == 'G' && line[1] == 'i';
    }
    assert line[2] == '1' && line[3] == '/' && line[4] == '0' && line[5] == '/';
    SlashAfterNameNeverMatches(line, Head(2, 3, 5));
  }

  /** A typical row: one-word Description, status `up`, VLAN 10. */
  lemma UpRow()
    ensures ShowIntStatus("Gi1/1 lan up 10 full auto 10G")
      == Some(StatusCaptures("Gi1/1", "lan", "up", "10", "full", "auto", "10G"))
  {
    var line := "Gi1/1 lan up 10 full auto 10G";
    var m := Cut(Head(2, 3, 5), 6, 9, Tail(10, 12, 13, 15, 16, 20, 21, 25, 26));
    UpRowCuts(line, m);
    OneWordDescription(line, m);
    ReportsMatch(line, m);
  }

  lemma UpRowCuts(line: string, m: Cut)
    requires line == "Gi1/1 lan up 10 full auto 10G"
    requires m == Cut(Head(2, 3, 5), 6, 9, Tail(10, 12, 13, 15, 16, 20, 21, 25, 26))
    ensures IsMatch(line, m) && Run(IsNonSpace, line, m.w, m.x) && !IsSpace(line[m.tail.k])
    ensures CapturesOf(line, m) == StatusCaptures("Gi1/1", "lan", "up", "10", "full", "auto", "10G")
  {
    hide IsMatch, Run;
    UpRowIsMatch(line, m);
    assert line[..5] == "Gi1/1";
    assert line[6..9] == "lan" by {
      assert line[6] == 'l' && line[7] == 'a' && line[8] == 'n';
    }
    assert line[10..12] == "up";
    assert line[13..15] == "10";
    assert line[16..20] == "full";
    assert line[21..25] == "auto";
    assert line[26..] == "10G";
  }

  lemma UpRowIsMatch(line: string, m: Cut)
    requires line == "Gi1/1 lan up 10 full auto 10G"
    requires m == Cut(Head(2, 3, 5), 6, 9, Tail(10, 12, 13, 15, 16, 20, 21, 25, 26))
    ensures IsMatch(line, m) && Run(IsNonSpace, line, m.w, m.x) && !IsSpace(line[m.tail.k])
  {
    UpRowHead(line);
    UpRowTail(line);
  }

  lemma UpRowHead(line: string)
    requires line == "Gi1/1 lan up 10 full auto 10G"
    ensures IsHead(line, Head(2, 3, 5)) && Run(IsSpace, line, 5, 6)
    ensures Run(IsNonSpace, line, 6, 9) && Run(IsNotNewline, line, 6, 9)
  {
    assert line[..2] == "Gi" by {
      assert line[0] == 'G' && line[1] == 'i';
    }
    assert line[2] == '1' && line[3] == '/' && line[4] == '1' && line[5] == ' ';
    assert line[6] == 'l' && line[7] == 'a' && line[8] == 'n';
  }

  lemma UpRowTail(line: string)
    requires line == "Gi1/1 lan up 10 full auto 10G"
    ensures IsTail(line, 9, Tail(10, 12, 13, 15, 16, 20, 21, 25, 26)) && !IsSpace(line[26])
  {
    UpRowWords(line);
    UpRowGaps(line);
  }

  lemma UpRowWords(line: string)
    requires line == "Gi1/1 lan up 10 full auto 10G"
    ensures line[10..12] in StatusWords && line[16..20] in DuplexWords
  {
    assert line[10..12] == "up";
    assert line[16..20] == "full";
  }

  lemma UpRowGaps(line: string)
    requires line == "Gi1/1 lan up 10 full auto 10G"
    ensures |line| == 29
    ensures Run(IsSpace, line, 9, 10) && Run(IsSpace, line, 12, 13) && Run(IsDigit, line, 13, 15)
    ensures Run(IsSpace, line, 15, 16) && Run(IsSpace, line, 20, 21) && Run(IsNonSpace, line, 21, 25)
    ensures Run(IsSpace, line, 25, 26) && Run(IsNotNewline, line, 26, 29) && !IsSpace(line[26])
  {
    assert line[9] == ' ';
    assert line[12] == ' ' && line[13] == '1' && line[14] == '0' && line[15] == ' ';
    assert line[20] == ' ' && line[21] == 'a' && line[22] == 'u' && line[23] == 't' && line[24] == 'o';
    assert line[25] == ' ' && line[26] == '1' && line[27] == '0' && line[28] == 'G';
  }

  lemma ReportsMatch(line: string, m: Cut)
    requires FindMatch(line) == Some(m)
    ensures IsMatch(line, m) && ShowIntStatus(line) == Some(CapturesOf(line, m))
  {
    FindMatchSound(line);
  }
}

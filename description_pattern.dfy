/**
 * The `show interface description` line pattern
 *
 *   ^(?P<Interface>\S+)\s+(?P<Status>admin down|down|up)\s+(?P<Protocol>down|up)\s*(?P<Description>.*)$
 *
 * as a hand-written recogniser. `Parse` names every way the pattern can cut
 * a line into its pieces (the language of the pattern with its groups);
 * `Recognise` returns the one RE2's leftmost-first rule picks, and the lemmas
 * below show that it picks it whenever any cut exists.
 */
module DescriptionPattern {
  import opened Wrappers
  import opened Text

  const StatusWords: seq<string> := ["admin down", "down", "up"]
  const ProtocolWords: seq<string> := ["down", "up"]

  /** The named groups of a match. */
  datatype Captures = Captures(Interface: string, Status: string, Protocol: string, Description: string)

  /** One cut of a line into the pieces of the pattern; `ws*` are the `\s` runs. */
  datatype Parse = Parse(
    iface: string, ws1: string, status: string, ws2: string,
    protocol: string, ws3: string, descr: string)

  function Joined(p: Parse): string {
    p.iface + p.ws1 + p.status + p.ws2 + p.protocol + p.ws3 + p.descr
  }

  /** Each piece is in the language of its part of the pattern. */
  predicate WellFormed(p: Parse) {
    && |p.iface| > 0 && NoSpace(p.iface)
    && |p.ws1| > 0 && AllSpace(p.ws1)
    && p.status in StatusWords
    && |p.ws2| > 0 && AllSpace(p.ws2)
    && p.protocol in ProtocolWords
    && AllSpace(p.ws3)
    && NoNewline(p.descr)
  }

  /** The pattern matches `line` with the groups `p` gives. */
  predicate IsParseOf(line: string, p: Parse) {
    WellFormed(p) && Joined(p) == line
  }

  function CapturesOf(p: Parse): Captures {
    Captures(p.iface, p.status, p.protocol, p.descr)
  }

  /** Cut points of a match: the ends of Interface, of the first `\s+`, of Status, of the second `\s+`, of Protocol and of `\s*`. */
  datatype Cut = Cut(a: nat, b: nat, c: nat, d: nat, e: nat, f: nat)

  /**
   * The cut RE2 reports. `\S+` and the first two `\s+` runs are greedy and
   * cannot give anything back (what follows each starts with a character of
   * the other class); the keyword alternations are tried in the order written;
   * `\s*` is greedy, so Description starts at the first non-space after the
   * protocol, and `.*$` needs the rest free of line feeds.
   */
  function FindCut(line: string): Option<Cut> {
    var a := SkipWhile(IsNonSpace, line, 0);
    var b := SkipWhile(IsSpace, line, a);
    if a == 0 || b == a then None else FromStatus(line, a, b)
  }

  /** The rest of `FindCut` once Interface ends at `a` and the status word should start at `b`. */
  function FromStatus(line: string, a: nat, b: nat): Option<Cut>
    requires a <= b <= |line|
  {
    var st := FirstWord(line, b, StatusWords);
    if st.None? then None else
    var c := b + |st.value|;
    var d := SkipWhile(IsSpace, line, c);
    if d == c then None else FromProtocol(line, a, b, c, d)
  }

  /** The rest of `FindCut` once the protocol word should start at `d`. */
  function FromProtocol(line: string, a: nat, b: nat, c: nat, d: nat): Option<Cut>
    requires d <= |line|
  {
    var pr := FirstWord(line, d, ProtocolWords);
    if pr.None? then None else
    var e := d + |pr.value|;
    var f := SkipWhile(IsSpace, line, e);
    if NoNewline(line[f..]) then Some(Cut(a, b, c, d, e, f)) else None
  }

  /** What a reported cut guarantees, position by position. */
  predicate CutFacts(line: string, t: Cut) {
    && 0 < t.a < t.b <= t.c < t.d <= t.e <= t.f <= |line|
    && t.a == SkipWhile(IsNonSpace, line, 0)
    && (forall k :: 0 <= k < t.a ==> IsNonSpace(line[k]))
    && (forall k :: t.a <= k < t.b ==> IsSpace(line[k]))
    && line[t.b..t.c] in StatusWords
    && (forall k :: t.c <= k < t.d ==> IsSpace(line[k]))
    && line[t.d..t.e] in ProtocolWords
    && (forall k :: t.e <= k < t.f ==> IsSpace(line[k]))
    && (forall k :: t.f <= k < |line| ==> IsNotNewline(line[k]))
    && (t.f == |line| || IsNonSpace(line[t.f]))
  }

  function ParseOfCut(line: string, t: Cut): Parse
    requires t.a <= t.b <= t.c <= t.d <= t.e <= t.f <= |line|
  {
    Parse(line[..t.a], line[t.a..t.b], line[t.b..t.c], line[t.c..t.d],
          line[t.d..t.e], line[t.e..t.f], line[t.f..])
  }

  /** The parse RE2 reports, if the line matches. */
  function Recognise(line: string): Option<Parse> {
    FindCutSound(line);
    match FindCut(line)
    case None => None
    case Some(t) => Some(ParseOfCut(line, t))
  }

  /** showIntDescription.FindStringSubmatch, as its named groups. */
  function ShowIntDescription(line: string): (r: Option<Captures>)
    ensures r.Some? ==>
      && |r.value.Interface| > 0
      && r.value.Interface == line[..SkipWhile(IsNonSpace, line, 0)]
      && r.value.Status in StatusWords
      && r.value.Protocol in ProtocolWords
      && NoNewline(r.value.Description)
      && (r.value.Description == [] || IsNonSpace(r.value.Description[0]))
  {
    RecogniseSound(line);
    match Recognise(line)
    case None => None
    case Some(p) => Some(CapturesOf(p))
  }

  // ---------------------------------------------------------------------
  // Soundness and completeness of the recogniser

  lemma WordsStartWithLetters()
    ensures forall w :: w in StatusWords ==> |w| > 0 && IsNonSpace(w[0])
    ensures forall w :: w in ProtocolWords ==> |w| > 0 && IsNonSpace(w[0])
    ensures PrefixFree(StatusWords) && PrefixFree(ProtocolWords)
  {
  }

  lemma FindCutSound(line: string)
    ensures FindCut(line).Some? ==> CutFacts(line, FindCut(line).value)
  {
    var a := SkipWhile(IsNonSpace, line, 0);
    var b := SkipWhile(IsSpace, line, a);
    if a != 0 && b != a {
      FromStatusSound(line, a, b);
    }
  }

  /** What a cut guarantees from the protocol word on. */
  predicate ProtocolFacts(line: string, t: Cut) {
    && t.d <= t.e <= t.f <= |line|
    && line[t.d..t.e] in ProtocolWords
    && (forall k :: t.e <= k < t.f ==> IsSpace(line[k]))
    && (forall k :: t.f <= k < |line| ==> IsNotNewline(line[k]))
    && (t.f == |line| || IsNonSpace(line[t.f]))
  }

  lemma FromStatusSound(line: string, a: nat, b: nat)
    requires a <= b <= |line|
    ensures var r := FromStatus(line, a, b);
      r.Some? ==>
        && r.value.a == a && r.value.b == b && b <= r.value.c < r.value.d
        && line[b..r.value.c] in StatusWords
        && (forall k :: r.value.c <= k < r.value.d ==> IsSpace(line[k]))
        && ProtocolFacts(line, r.value)
  {
    var st := FirstWord(line, b, StatusWords);
    if st.Some? {
      var c := b + |st.value|;
      var d := SkipWhile(IsSpace, line, c);
      if d != c {
        FromProtocolSound(line, a, b, c, d);
      }
    }
  }

  lemma FromProtocolSound(line: string, a: nat, b: nat, c: nat, d: nat)
    requires d <= |line|
    ensures var r := FromProtocol(line, a, b, c, d);
      r.Some? ==> r.value.a == a && r.value.b == b && r.value.c == c && r.value.d == d && ProtocolFacts(line, r.value)
  {
    var pr := FirstWord(line, d, ProtocolWords);
    if pr.Some? {
      var e := d + |pr.value|;
      var f := SkipWhile(IsSpace, line, e);
      RunSlice(IsNotNewline, line, f, |line|);
      assert line[f..|line|] == line[f..];
    }
  }

  /** The pieces between consecutive cut points put the line back together. */
  lemma CutJoins(line: string, t: Cut)
    requires t.a <= t.b <= t.c <= t.d <= t.e <= t.f <= |line|
    ensures Joined(ParseOfCut(line, t)) == line
  {
    var p := ParseOfCut(line, t);
    assert p.iface + p.ws1 == line[..t.b];
    assert p.iface + p.ws1 + p.status == line[..t.c];
    assert p.iface + p.ws1 + p.status + p.ws2 == line[..t.d];
    assert p.iface + p.ws1 + p.status + p.ws2 + p.protocol == line[..t.e];
    assert p.iface + p.ws1 + p.status + p.ws2 + p.protocol + p.ws3 == line[..t.f];
    assert line[..t.f] + line[t.f..] == line;
  }

  /** A cut with those facts is a parse of the line. */
  lemma CutFactsParse(line: string, t: Cut)
    requires CutFacts(line, t)
    ensures IsParseOf(line, ParseOfCut(line, t))
  {
    CutJoins(line, t);
    RunSlice(IsNonSpace, line, 0, t.a);
    RunSlice(IsSpace, line, t.a, t.b);
    RunSlice(IsSpace, line, t.c, t.d);
    RunSlice(IsSpace, line, t.e, t.f);
    RunSlice(IsNotNewline, line, t.f, |line|);
    assert line[0..t.a] == line[..t.a] && line[t.f..|line|] == line[t.f..];
  }

  /** What `Recognise` returns is a cut of the line, with the longest `\s*` before Description. */
  lemma RecogniseSound(line: string)
    ensures Recognise(line).Some? ==>
      var p := Recognise(line).value;
      && IsParseOf(line, p)
      && p.iface == line[..SkipWhile(IsNonSpace, line, 0)]
      && (p.descr == [] || IsNonSpace(p.descr[0]))
  {
    FindCutSound(line);
    if FindCut(line).Some? {
      var t := FindCut(line).value;
      CutFactsParse(line, t);
      if t.f < |line| {
        assert ParseOfCut(line, t).descr[0] == line[t.f];
      }
    }
  }

  /** `t` cuts the line into pieces in the languages of the pattern's parts. */
  predicate IsCutOf(line: string, t: Cut) {
    && 0 < t.a < t.b <= t.c < t.d <= t.e <= t.f <= |line|
    && (forall k :: 0 <= k < t.a ==> IsNonSpace(line[k]))
    && (forall k :: t.a <= k < t.b ==> IsSpace(line[k]))
    && line[t.b..t.c] in StatusWords
    && (forall k :: t.c <= k < t.d ==> IsSpace(line[k]))
    && line[t.d..t.e] in ProtocolWords
    && (forall k :: t.e <= k < t.f ==> IsSpace(line[k]))
    && (forall k :: t.f <= k < |line| ==> IsNotNewline(line[k]))
  }

  function CutOfParse(q: Parse): Cut {
    var a := |q.iface|;
    var b := a + |q.ws1|;
    var c := b + |q.status|;
    var d := c + |q.ws2|;
    var e := d + |q.protocol|;
    Cut(a, b, c, d, e, e + |q.ws3|)
  }

  /** A parse marks its cut points in the line, and the pieces between them are its own. */
  lemma ParseGivesCut(line: string, q: Parse)
    requires IsParseOf(line, q)
    ensures IsCutOf(line, CutOfParse(q))
    ensures ParseOfCut(line, CutOfParse(q)) == q
  {
    var t := CutOfParse(q);
    ParsePieces(line, q);
    forall k | 0 <= k < t.a ensures IsNonSpace(line[k]) { assert line[k] == line[..t.a][k]; }
    forall k | t.a <= k < t.b ensures IsSpace(line[k]) { assert line[k] == line[t.a..t.b][k - t.a]; }
    forall k | t.c <= k < t.d ensures IsSpace(line[k]) { assert line[k] == line[t.c..t.d][k - t.c]; }
    forall k | t.e <= k < t.f ensures IsSpace(line[k]) { assert line[k] == line[t.e..t.f][k - t.e]; }
    forall k | t.f <= k < |line| ensures IsNotNewline(line[k]) { assert line[k] == line[t.f..][k - t.f]; }
  }

  /** The slices of the line between the cut points of a parse are the parse's pieces. */
  lemma ParsePieces(line: string, q: Parse)
    requires Joined(q) == line
    ensures var t := CutOfParse(q);
      && t.f <= |line|
      && line[..t.a] == q.iface && line[t.a..t.b] == q.ws1 && line[t.b..t.c] == q.status
      && line[t.c..t.d] == q.ws2 && line[t.d..t.e] == q.protocol && line[t.e..t.f] == q.ws3
      && line[t.f..] == q.descr
  {
    var t := CutOfParse(q);
    assert line[..t.a] == q.iface;
    assert line[t.a..t.b] == q.ws1;
    assert line[t.b..t.c] == q.status;
    assert line[t.c..t.d] == q.ws2;
    assert line[t.d..t.e] == q.protocol;
    assert line[t.e..t.f] == q.ws3;
    assert line[t.f..] == q.descr;
  }

  /**
   * Given any cut, `FindCut` finds the same first five cut points and a last
   * one at least as far along.
   */
  lemma FindCutMaximal(line: string, t: Cut)
    requires IsCutOf(line, t)
    ensures FindCut(line).Some?
    ensures var r := FindCut(line).value;
      r.a == t.a && r.b == t.b && r.c == t.c && r.d == t.d && r.e == t.e && t.f <= r.f
  {
    KeywordsStartCut(line, t);
    SkipWhileExact(IsNonSpace, line, 0, t.a);
    SkipWhileExact(IsSpace, line, t.a, t.b);
    var a := SkipWhile(IsNonSpace, line, 0);
    var b := SkipWhile(IsSpace, line, a);
    assert a == t.a && b == t.b;
    FromStatusReaches(line, t);
    FromProtocolMaximal(line, t);
    assert FindCut(line) == FromStatus(line, t.a, t.b);
  }

  /** The keywords of a cut start with non-space characters. */
  lemma KeywordsStartCut(line: string, t: Cut)
    requires IsCutOf(line, t)
    ensures IsNonSpace(line[t.b]) && t.d < |line| && IsNonSpace(line[t.d])
  {
    WordsStartWithLetters();
    assert line[t.b] == line[t.b..t.c][0];
    assert line[t.d] == line[t.d..t.e][0];
  }

  /** Past the first gap, any cut leads `FindCut` to its own protocol position. */
  lemma FromStatusReaches(line: string, t: Cut)
    requires IsCutOf(line, t)
    requires t.d < |line| && IsNonSpace(line[t.d])
    ensures FromStatus(line, t.a, t.b) == FromProtocol(line, t.a, t.b, t.c, t.d)
  {
    StatusWordAt(line, t);
    var st := FirstWord(line, t.b, StatusWords);
    var c := t.b + |st.value|;
    assert c == t.c;
    SkipWhileExact(IsSpace, line, t.c, t.d);
    var d := SkipWhile(IsSpace, line, c);
    assert d == t.d;
  }

  /** The status alternation picks the status word of any cut. */
  lemma StatusWordAt(line: string, t: Cut)
    requires IsCutOf(line, t)
    ensures FirstWord(line, t.b, StatusWords) == Some(line[t.b..t.c])
  {
    WordsStartWithLetters();
    FirstWordUnique(line, t.b, StatusWords, line[t.b..t.c]);
  }

  lemma FromProtocolMaximal(line: string, t: Cut)
    requires IsCutOf(line, t)
    ensures FromProtocol(line, t.a, t.b, t.c, t.d).Some?
    ensures var r := FromProtocol(line, t.a, t.b, t.c, t.d).value;
      r.a == t.a && r.b == t.b && r.c == t.c && r.d == t.d && r.e == t.e && t.f <= r.f
  {
    ProtocolWordAt(line, t);
    var pr := FirstWord(line, t.d, ProtocolWords);
    var e := t.d + |pr.value|;
    assert e == t.e;
    SkipWhileCovers(IsSpace, line, t.e, t.f);
    var f := SkipWhile(IsSpace, line, e);
    RunSlice(IsNotNewline, line, f, |line|);
    assert line[f..|line|] == line[f..];
    assert FromProtocol(line, t.a, t.b, t.c, t.d) == Some(Cut(t.a, t.b, t.c, t.d, e, f));
  }

  /** The protocol alternation picks the protocol word of any cut. */
  lemma ProtocolWordAt(line: string, t: Cut)
    requires IsCutOf(line, t)
    ensures FirstWord(line, t.d, ProtocolWords) == Some(line[t.d..t.e])
  {
    WordsStartWithLetters();
    FirstWordUnique(line, t.d, ProtocolWords, line[t.d..t.e]);
  }

  /**
   * Whenever the pattern can cut the line at all, `Recognise` succeeds, agrees
   * on every group before Description, and takes at least as much space
   * before Description.
   */
  lemma RecogniseComplete(line: string, q: Parse)
    requires IsParseOf(line, q)
    ensures Recognise(line).Some?
    ensures var p := Recognise(line).value;
      && p.iface == q.iface && p.ws1 == q.ws1 && p.status == q.status
      && p.ws2 == q.ws2 && p.protocol == q.protocol
      && |p.ws3| >= |q.ws3|
      && q.ws3 + q.descr == p.ws3 + p.descr
  {
    ParseGivesCut(line, q);
    RecogniseFromCut(line, CutOfParse(q));
  }

  /** `RecogniseComplete`, stated for the cut points of the other parse. */
  lemma RecogniseFromCut(line: string, t: Cut)
    requires IsCutOf(line, t)
    ensures Recognise(line).Some?
    ensures var p := Recognise(line).value; var q := ParseOfCut(line, t);
      && p.iface == q.iface && p.ws1 == q.ws1 && p.status == q.status
      && p.ws2 == q.ws2 && p.protocol == q.protocol
      && |p.ws3| >= |q.ws3|
      && q.ws3 + q.descr == p.ws3 + p.descr
  {
    FindCutMaximal(line, t);
    var r := FindCut(line).value;
    assert Recognise(line) == Some(ParseOfCut(line, r));
    SliceSplit(line, t.e, t.f);
    SliceSplit(line, r.e, r.f);
  }

  /** Any cut of the line has the captures `ShowIntDescription` reports, up to how much space Description starts with. */
  lemma CapturesDetermined(line: string, q: Parse)
    requires IsParseOf(line, q)
    ensures ShowIntDescription(line).Some?
    ensures var c := ShowIntDescription(line).value;
      && c.Interface == q.iface && c.Status == q.status && c.Protocol == q.protocol
      && (exists ws :: AllSpace(ws) && q.ws3 + q.descr == ws + c.Description)
  {
    RecogniseComplete(line, q);
    RecogniseSound(line);
    var p := Recognise(line).value;
    assert AllSpace(p.ws3) && q.ws3 + q.descr == p.ws3 + p.descr;
  }

  /** A line that does not start with a non-space character never matches. */
  lemma LeadingSpaceNeverMatches(line: string)
    requires |line| > 0 && IsSpace(line[0])
    ensures ShowIntDescription(line).None?
  {
  }

  /**
   * Composing a line from pieces of the pattern's languages, with a
   * Description that does not start with a space, reads those pieces back.
   */
  lemma ComposedLineParses(q: Parse)
    requires WellFormed(q)
    requires q.descr == [] || IsNonSpace(q.descr[0])
    ensures ShowIntDescription(Joined(q)) == Some(CapturesOf(q))
  {
    var line := Joined(q);
    RecogniseComplete(line, q);
    RecogniseSound(line);
    var p := Recognise(line).value;
    assert p.ws3 == (q.ws3 + q.descr)[..|q.ws3|];
  }

  /** The column header: its second word is not a status keyword. */
  lemma HeaderLineDoesNotMatch(line: string)
    requires line == "Interface Status Protocol Description"
    ensures ShowIntDescription(line).None?
  {
    assert line[9] == ' ' && line[10] == 'S';
    SkipWhileExact(IsNonSpace, line, 0, 9);
    SkipWhileExact(IsSpace, line, 9, 10);
    NoStatusAt(line, 9, 10);
    assert FindCut(line).None?;
  }

  /** Every status keyword starts with `a`, `d` or `u`; any other letter there ends the match. */
  lemma NoStatusAt(line: string, a: nat, b: nat)
    requires a <= b < |line|
    requires line[b] != 'a' && line[b] != 'd' && line[b] != 'u'
    ensures FromStatus(line, a, b).None?
  {
  }

  /** A line that stops after the status has no protocol and does not match. */
  lemma MissingProtocolDoesNotMatch()
    ensures ShowIntDescription("Gi0/1 up").None?
  {
    var line := "Gi0/1 up";
    SkipWhileExact(IsNonSpace, line, 0, 5);
    SkipWhileExact(IsSpace, line, 5, 6);
    assert FirstWord(line, 6, StatusWords) == Some("up");
    SkipWhileExact(IsSpace, line, 8, 8);
  }

  /** "admin down" is one status, not the word "admin". */
  lemma AdminDownLine()
    ensures ShowIntDescription("Gi0/2 admin down down core")
      == Some(Captures("Gi0/2", "admin down", "down", "core"))
  {
    var q := Parse("Gi0/2", " ", "admin down", " ", "down", " ", "core");
    assert Joined(q) == "Gi0/2 admin down down core";
    ComposedLineParses(q);
  }

  /** A line with only spaces after the protocol has an empty Description. */
  lemma EmptyDescriptionLine()
    ensures ShowIntDescription("Te1/1 up up   ") == Some(Captures("Te1/1", "up", "up", ""))
  {
    var q := Parse("Te1/1", " ", "up", " ", "up", "   ", "");
    assert Joined(q) == "Te1/1 up up   ";
    ComposedLineParses(q);
  }
}

/**
 * Character classes and the few pieces of Go's standard library the audit
 * code leans on: RE2's `\d` and `\s`, `unicode.IsSpace` with `strings.Fields`,
 * `bufio.ScanLines`, and decimal formatting of naturals (`%d`, zero padding).
 */
module Text {
  import opened Wrappers

  /** RE2 `\d`: an ASCII digit. */
  predicate IsDigit(c: char) { '0' <= c <= '9' }

  /** RE2 `\D`. */
  predicate IsNonDigit(c: char) { !IsDigit(c) }

  /** RE2 `\s` as Go defines it: `[\t\n\f\r ]`. */
  predicate IsSpace(c: char) { c == ' ' || c == '\t' || c == '\n' || c == '\U{C}' || c == '\r' }

  /** RE2 `\S`. */
  predicate IsNonSpace(c: char) { !IsSpace(c) }

  /** RE2 `.` without the `s` flag: anything but a line feed. */
  predicate IsNotNewline(c: char) { c != '\n' }

  /** Go's `unicode.IsSpace`, which `strings.Fields` splits on. */
  predicate IsUnicodeSpace(c: char) {
    || c == '\t' || c == '\n' || c == '\U{B}' || c == '\U{C}' || c == '\r' || c == ' '
    || c == '\U{85}' || c == '\U{A0}' || c == '\U{1680}'
    || ('\U{2000}' <= c <= '\U{200A}')
    || c == '\U{2028}' || c == '\U{2029}' || c == '\U{202F}' || c == '\U{205F}' || c == '\U{3000}'
  }

  predicate IsNotUnicodeSpace(c: char) { !IsUnicodeSpace(c) }

  predicate All(p: char -> bool, s: string) {
    forall k :: 0 <= k < |s| ==> p(s[k])
  }

  predicate AllDigits(s: string) { All(IsDigit, s) }
  predicate NoDigits(s: string) { All(IsNonDigit, s) }
  predicate AllSpace(s: string) { All(IsSpace, s) }
  predicate NoSpace(s: string) { All(IsNonSpace, s) }
  predicate NoNewline(s: string) { All(IsNotNewline, s) }

  /** Every character of `s` from `i` up to `j` satisfies `p`. */
  predicate Run(p: char -> bool, s: string, i: nat, j: nat) {
    i <= j <= |s| && forall k :: i <= k < j ==> p(s[k])
  }

  /** A run, read as the slice it covers. */
  lemma RunSlice(p: char -> bool, s: string, i: nat, j: nat)
    requires i <= j <= |s|
    ensures Run(p, s, i, j) <==> All(p, s[i..j])
  {
    if All(p, s[i..j]) {
      forall k | i <= k < j ensures p(s[k]) { assert s[k] == s[i..j][k - i]; }
    }
  }

  /** Two adjacent slices make up the slice that spans both. */
  lemma SliceSplit(s: string, i: nat, j: nat)
    requires i <= j <= |s|
    ensures s[i..j] + s[j..] == s[i..]
  {
  }

  /** `s` holds `w` at offset `i`. */
  predicate PrefixAt(s: string, i: nat, w: string) {
    i + |w| <= |s| && s[i..i + |w|] == w
  }

  /** No word of the list is a proper prefix of another. */
  predicate PrefixFree(words: seq<string>) {
    forall u, v :: u in words && v in words && u != v ==> !(u <= v)
  }

  /**
   * An RE2 alternation of literal words at offset `i`: the first word, in
   * the order written, that the text holds there.
   */
  function FirstWord(s: string, i: nat, words: seq<string>): (r: Option<string>)
    ensures r.Some? ==> r.value in words && PrefixAt(s, i, r.value)
  {
    if words == [] then None
    else if PrefixAt(s, i, words[0]) then Some(words[0])
    else FirstWord(s, i, words[1..])
  }

  /** The alternation fails only when the text holds none of the words there. */
  lemma {:induction false} FirstWordNone(s: string, i: nat, words: seq<string>)
    ensures FirstWord(s, i, words).None? <==> forall w :: w in words ==> !PrefixAt(s, i, w)
  {
    if words != [] && !PrefixAt(s, i, words[0]) {
      FirstWordNone(s, i, words[1..]);
      assert forall w :: w in words ==> w == words[0] || w in words[1..];
    }
  }

  /** Two words the text holds at the same offset are prefixes one of the other. */
  lemma PrefixAtBoth(s: string, i: nat, u: string, v: string)
    requires PrefixAt(s, i, u) && PrefixAt(s, i, v) && |u| <= |v|
    ensures u <= v
  {
    assert v[..|u|] == s[i..i + |u|];
  }

  /** Words that differ at a position both reach are not prefixes of one another. */
  lemma NotPrefixAt(u: string, v: string, k: nat)
    requires k < |u| && k < |v| && u[k] != v[k]
    ensures !(u <= v)
  {
  }

  /**
   * In a prefix-free alternation, whichever word the text holds is the one
   * chosen: the order of the alternatives does not matter.
   */
  lemma FirstWordUnique(s: string, i: nat, words: seq<string>, w: string)
    requires PrefixFree(words)
    requires w in words && PrefixAt(s, i, w)
    ensures FirstWord(s, i, words) == Some(w)
  {
    FirstWordNone(s, i, words);
    var r := FirstWord(s, i, words);
    var u := r.value;
    if |u| <= |w| { PrefixAtBoth(s, i, u, w); } else { PrefixAtBoth(s, i, w, u); }
  }

  /**
   * The end of the longest run of characters satisfying `p` that starts at
   * `i`: the position a greedy `p*` stops at.
   */
  function SkipWhile(p: char -> bool, s: string, i: nat): (j: nat)
    requires i <= |s|
    ensures i <= j <= |s|
    ensures forall k :: i <= k < j ==> p(s[k])
    ensures j == |s| || !p(s[j])
    decreases |s| - i
  {
    if i == |s| || !p(s[i]) then i else SkipWhile(p, s, i + 1)
  }

  /** Any run of `p` from `i` ends no later than the greedy one. */
  lemma SkipWhileCovers(p: char -> bool, s: string, i: nat, j: nat)
    requires i <= j <= |s|
    requires forall k :: i <= k < j ==> p(s[k])
    ensures j <= SkipWhile(p, s, i)
  {
  }

  /** A run of `p` from `i` that cannot be extended is the greedy one. */
  lemma SkipWhileExact(p: char -> bool, s: string, i: nat, j: nat)
    requires i <= j <= |s|
    requires forall k :: i <= k < j ==> p(s[k])
    requires j == |s| || !p(s[j])
    ensures SkipWhile(p, s, i) == j
  {
  }

  // ---------------------------------------------------------------------
  // Decimal numbers

  function DigitChar(d: nat): (c: char)
    requires d < 10
    ensures IsDigit(c)
  {
    ('0' as int + d) as char
  }

  function DigitValue(c: char): nat
    requires IsDigit(c)
  {
    c as int - '0' as int
  }

  /** Go's `%d` of a non-negative integer. */
  function NatToDecimal(n: nat): (s: string)
    ensures |s| >= 1 && AllDigits(s)
    ensures n < 10 <==> |s| == 1
    decreases n
  {
    if n < 10 then [DigitChar(n)] else NatToDecimal(n / 10) + [DigitChar(n % 10)]
  }

  /** The value a digit string denotes. */
  function DecimalValue(s: string): nat
    requires AllDigits(s)
  {
    if s == [] then 0 else DecimalValue(s[..|s| - 1]) * 10 + DigitValue(s[|s| - 1])
  }

  /** Formatting a natural in decimal and reading it back gives the natural. */
  lemma {:induction false} DecimalRoundTrip(n: nat)
    ensures DecimalValue(NatToDecimal(n)) == n
  {
    if n >= 10 {
      DecimalRoundTrip(n / 10);
      var s := NatToDecimal(n);
      assert s[..|s| - 1] == NatToDecimal(n / 10);
    }
  }

  /** Leading zeros do not change the value of a digit string. */
  lemma {:induction false} DecimalValueZeros(z: nat, s: string)
    requires AllDigits(s)
    ensures AllDigits(seq(z, _ => '0') + s)
    ensures DecimalValue(seq(z, _ => '0') + s) == DecimalValue(s)
  {
    var t := seq(z, _ => '0') + s;
    assert AllDigits(t) by {
      forall k | 0 <= k < |t| ensures IsDigit(t[k]) {
        if k >= z { assert t[k] == s[k - z]; }
      }
    }
    if s == [] {
      ZerosValue(z);
      assert t == seq(z, _ => '0');
    } else {
      DecimalValueZeros(z, s[..|s| - 1]);
      assert t[..|t| - 1] == seq(z, _ => '0') + s[..|s| - 1];
    }
  }

  lemma {:induction false} ZerosValue(z: nat)
    ensures AllDigits(seq(z, _ => '0'))
    ensures DecimalValue(seq(z, _ => '0')) == 0
  {
    if z > 0 {
      ZerosValue(z - 1);
      assert seq(z, _ => '0')[..z - 1] == seq(z - 1, _ => '0');
    }
  }

  /** Zero-padding to a minimum width, as Go's time layouts do. */
  function PadZeros(s: string, width: nat): (r: string)
    ensures |r| == if |s| >= width then |s| else width
    ensures AllDigits(s) ==> AllDigits(r) && DecimalValue(r) == DecimalValue(s)
  {
    if |s| >= width then s
    else
      var r := seq(width - |s|, _ => '0') + s;
      if AllDigits(s) then DecimalValueZeros(width - |s|, s); r else r
  }

  /** `n` written with at least `width` digits. */
  function Padded(n: nat, width: nat): (r: string)
    ensures AllDigits(r) && DecimalValue(r) == n
    ensures |NatToDecimal(n)| <= width ==> |r| == width
  {
    DecimalRoundTrip(n);
    PadZeros(NatToDecimal(n), width)
  }

  lemma {:induction false} SmallDecimalLength(n: nat, width: nat)
    requires 1 <= width
    requires n < Pow10(width)
    ensures |NatToDecimal(n)| <= width
  {
    if n >= 10 {
      SmallDecimalLength(n / 10, width - 1);
    }
  }

  function Pow10(k: nat): (r: nat)
    ensures r >= 1
  {
    if k == 0 then 1 else 10 * Pow10(k - 1)
  }

  // ---------------------------------------------------------------------
  // bufio.ScanLines

  /** The line without one trailing carriage return. */
  function DropCR(t: string): string {
    if |t| > 0 && t[|t| - 1] == '\r' then t[..|t| - 1] else t
  }

  /**
   * The tokens `bufio.Scanner` with `ScanLines` yields: the text split at
   * each line feed, one trailing carriage return dropped from each piece,
   * and no empty token after a final line feed.
   */
  function Lines(s: string): seq<string>
    decreases |s|
  {
    if s == [] then []
    else
      var i := SkipWhile(IsNotNewline, s, 0);
      if i == |s| then [DropCR(s)] else [DropCR(s[..i])] + Lines(s[i + 1..])
  }

  /** The text whose lines are `ls`, each terminated by a line feed. */
  function Terminated(ls: seq<string>): string {
    if ls == [] then "" else ls[0] + "\n" + Terminated(ls[1..])
  }

  predicate PlainLine(l: string) {
    NoNewline(l) && (|l| == 0 || l[|l| - 1] != '\r')
  }

  /** No token holds a line feed, and there are never more tokens than characters. */
  lemma {:induction false} LinesShape(s: string)
    ensures |Lines(s)| <= |s|
    ensures forall k :: 0 <= k < |Lines(s)| ==> NoNewline(Lines(s)[k])
    decreases |s|
  {
    if s != [] {
      var i := SkipWhile(IsNotNewline, s, 0);
      if i < |s| {
        LinesShape(s[i + 1..]);
        assert NoNewline(s[..i]);
      }
    }
  }

  /** Scanning newline-terminated lines gives the lines back. */
  lemma {:induction false} LinesOfTerminated(ls: seq<string>)
    requires forall k :: 0 <= k < |ls| ==> PlainLine(ls[k])
    ensures Lines(Terminated(ls)) == ls
  {
    if ls != [] {
      var l := ls[0];
      var rest := Terminated(ls[1..]);
      var s := Terminated(ls);
      assert s == l + "\n" + rest;
      assert PlainLine(l);
      SkipWhileExact(IsNotNewline, s, 0, |l|);
      assert s[..|l|] == l;
      assert s[|l| + 1..] == rest;
      LinesOfTerminated(ls[1..]);
    }
  }

  // ---------------------------------------------------------------------
  // strings.Fields

  /** The maximal runs of non-space characters, in order (`strings.Fields`). */
  function Fields(s: string): seq<string>
    decreases |s|
  {
    var i := SkipWhile(IsUnicodeSpace, s, 0);
    if i == |s| then []
    else
      var j := SkipWhile(IsNotUnicodeSpace, s, i);
      [s[i..j]] + Fields(s[j..])
  }

  predicate IsWord(w: string) {
    |w| > 0 && All(IsNotUnicodeSpace, w)
  }

  /** The words joined by single spaces. */
  function JoinWords(ws: seq<string>): string {
    if ws == [] then "" else if |ws| == 1 then ws[0] else ws[0] + " " + JoinWords(ws[1..])
  }

  /** Every field is a non-empty word without spaces. */
  lemma {:induction false} FieldsAreWords(s: string)
    ensures forall k :: 0 <= k < |Fields(s)| ==> IsWord(Fields(s)[k])
    decreases |s|
  {
    var i := SkipWhile(IsUnicodeSpace, s, 0);
    if i < |s| {
      var j := SkipWhile(IsNotUnicodeSpace, s, i);
      FieldsAreWords(s[j..]);
    }
  }

  /** A text of spaces only has no fields, and only such a text. */
  lemma FieldsOfBlank(s: string)
    ensures Fields(s) == [] <==> All(IsUnicodeSpace, s)
  {
    var i := SkipWhile(IsUnicodeSpace, s, 0);
    if i < |s| {
      assert !IsUnicodeSpace(s[i]);
    }
  }

  /** Splitting words joined by single spaces gives the words back. */
  lemma {:induction false} FieldsOfJoin(ws: seq<string>)
    requires forall k :: 0 <= k < |ws| ==> IsWord(ws[k])
    ensures Fields(JoinWords(ws)) == ws
  {
    if ws == [] {
    } else {
      var w := ws[0];
      var s := JoinWords(ws);
      assert IsWord(w);
      SkipWhileExact(IsUnicodeSpace, s, 0, 0);
      if |ws| == 1 {
        SkipWhileExact(IsNotUnicodeSpace, s, 0, |w|);
        assert s[0..|w|] == w;
        assert s[|w|..] == [];
        assert Fields(s[|w|..]) == [];
      } else {
        var rest := JoinWords(ws[1..]);
        assert s == w + " " + rest;
        SkipWhileExact(IsNotUnicodeSpace, s, 0, |w|);
        assert s[0..|w|] == w;
        var t := s[|w|..];
        assert t == " " + rest;
        FieldsOfJoin(ws[1..]);
        FieldsSkipsLeadingSpace(t, rest);
      }
    }
  }

  /** One leading space does not change the fields. */
  lemma FieldsSkipsLeadingSpace(t: string, rest: string)
    requires t == " " + rest
    ensures Fields(t) == Fields(rest)
  {
    var i := SkipWhile(IsUnicodeSpace, rest, 0);
    ShiftedSpaces(t, rest, i);
    if i < |rest| {
      var j := SkipWhile(IsNotUnicodeSpace, rest, i);
      ShiftedWord(t, rest, i, j);
      assert Fields(t) == [t[i + 1..j + 1]] + Fields(t[j + 1..]);
    }
  }

  /** The leading blanks of `" " + rest` are one more than those of `rest`. */
  lemma ShiftedSpaces(t: string, rest: string, i: nat)
    requires t == " " + rest
    requires i == SkipWhile(IsUnicodeSpace, rest, 0)
    ensures SkipWhile(IsUnicodeSpace, t, 0) == i + 1
  {
    forall k | 0 <= k < i + 1 ensures IsUnicodeSpace(t[k]) {
      if k > 0 { assert t[k] == rest[k - 1]; }
    }
    assert i + 1 == |t| || !IsUnicodeSpace(t[i + 1]) by {
      if i + 1 < |t| { assert t[i + 1] == rest[i]; }
    }
    SkipWhileExact(IsUnicodeSpace, t, 0, i + 1);
  }

  /** A word of `rest` sits one place further on in `" " + rest`, and so does what follows it. */
  lemma ShiftedWord(t: string, rest: string, i: nat, j: nat)
    requires t == " " + rest
    requires i <= |rest| && j == SkipWhile(IsNotUnicodeSpace, rest, i)
    ensures SkipWhile(IsNotUnicodeSpace, t, i + 1) == j + 1
    ensures t[i + 1..j + 1] == rest[i..j] && t[j + 1..] == rest[j..]
  {
    forall k | i + 1 <= k < j + 1 ensures IsNotUnicodeSpace(t[k]) {
      assert t[k] == rest[k - 1];
    }
    assert j + 1 == |t| || !IsNotUnicodeSpace(t[j + 1]) by {
      if j + 1 < |t| { assert t[j + 1] == rest[j]; }
    }
    SkipWhileExact(IsNotUnicodeSpace, t, i + 1, j + 1);
    assert t[1..] == rest;
  }

}

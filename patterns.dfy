/** Hand-written scanners for the regular expressions of the extraction core, each shown
    equivalent to a declarative reading of the regular expression it replaces.

    Every flag regex has the shape  <flag> <gap> (<token>):  a literal, then `\s*`, `\s+`
    or nothing, then a captured token. Because no token begins with whitespace, Python's
    backtracking can only succeed with the longest whitespace run, and the greedy token it
    captures is the longest one that starts there. */
module Patterns {
  import opened Text
  import opened Outcomes

  datatype CharClass =
    | Space        // \s
    | Digit        // \d
    | Word         // \w
    | DigitOrDot   // [\d.]
    | HexOrDash    // [a-f0-9-]
    | SpaceOrDash  // [\s-]

  predicate InClass(c: char, k: CharClass) {
    match k
    case Space => IsSpace(c)
    case Digit => IsDigit(c)
    case Word => IsWordChar(c)
    case DigitOrDot => IsDigit(c) || c == '.'
    case HexOrDash => IsDigit(c) || ('a' <= c <= 'f') || c == '-'
    case SpaceOrDash => IsSpace(c) || c == '-'
  }

  /** Every character from `lo` up to `hi` belongs to the class. */
  ghost predicate AllIn(s: string, lo: nat, hi: nat, k: CharClass)
    requires lo <= hi <= |s|
  {
    forall j :: lo <= j < hi ==> InClass(s[j], k)
  }

  /** The length of the longest run of `k` characters starting at `i`. */
  function RunLen(s: string, i: nat, k: CharClass): (n: nat)
    requires i <= |s|
    ensures i + n <= |s|
    decreases |s| - i
  {
    if i < |s| && InClass(s[i], k) then 1 + RunLen(s, i + 1, k) else 0
  }

  /** The run stops at the end of `s` or before a character outside the class. */
  lemma {:induction false} RunLenStops(s: string, i: nat, k: CharClass)
    requires i <= |s|
    ensures var n := RunLen(s, i, k); i + n == |s| || !InClass(s[i + n], k)
    decreases |s| - i
  {
    if i < |s| && InClass(s[i], k) {
      RunLenStops(s, i + 1, k);
    }
  }

  /** Every character of the run belongs to the class. */
  lemma {:induction false} RunLenAll(s: string, i: nat, k: CharClass)
    requires i <= |s|
    ensures AllIn(s, i, i + RunLen(s, i, k), k)
    decreases |s| - i
  {
    if i < |s| && InClass(s[i], k) {
      RunLenAll(s, i + 1, k);
    }
  }

  /** No run of class characters starting at `i` is longer than `RunLen`. */
  lemma {:induction false} RunLenLongest(s: string, i: nat, k: CharClass, n: nat)
    requires i + n <= |s| && AllIn(s, i, i + n, k)
    ensures n <= RunLen(s, i, k)
    decreases n
  {
    if n > 0 {
      assert InClass(s[i], k);
      RunLenLongest(s, i + 1, k, n - 1);
    }
  }

  /** A run stops at or before any character outside the class. */
  lemma {:induction false} RunLenBefore(s: string, i: nat, j: nat, k: CharClass)
    requires i <= j < |s| && !InClass(s[j], k)
    ensures i + RunLen(s, i, k) <= j
    decreases j - i
  {
    if i < j && InClass(s[i], k) {
      RunLenBefore(s, i + 1, j, k);
    }
  }

  /** A run of `n` class characters that stops before a non-class character is the longest one. */
  lemma RunLenExact(s: string, i: nat, k: CharClass, n: nat)
    requires i + n <= |s| && AllIn(s, i, i + n, k)
    requires i + n == |s| || !InClass(s[i + n], k)
    ensures RunLen(s, i, k) == n
  {
    RunLenLongest(s, i, k, n);
    RunLenAll(s, i, k);
  }

  /** What separates the flag from its value: nothing, `\s*` or `\s+`. */
  datatype Gap = NoGap | AnySpaces | SomeSpaces

  /** The captured value: `k+`, `\d+<mid>\d+`, or one literal character. */
  datatype Token = Run(k: CharClass) | DigitsAround(mid: char) | Char(c: char)

  datatype FlagPattern = FlagPattern(flag: string, gap: Gap, token: Token)

  /** The shapes the scanner handles: a token never starts with whitespace, and the middle
      character of `\d+<mid>\d+` is not a digit. */
  predicate WellFormed(p: FlagPattern) {
    && p.flag != []
    && match p.token
       case Run(k) => k != Space && k != SpaceOrDash
       case DigitsAround(m) => !IsDigit(m)
       case Char(c) => !IsSpace(c)
  }

  /** `s[i..]` starts with `f`, checked character by character. */
  predicate FlagAt(s: string, i: nat, f: string)
    requires i <= |s|
    ensures FlagAt(s, i, f) ==> i + |f| <= |s|
    decreases |f|
  {
    f == [] || (i < |s| && s[i] == f[0] && FlagAt(s, i + 1, f[1..]))
  }

  lemma {:induction false} FlagAtIsPrefix(s: string, i: nat, f: string)
    requires i <= |s|
    ensures FlagAt(s, i, f) <==> f <= s[i..]
    decreases |f|
  {
    if f != [] && i < |s| {
      FlagAtIsPrefix(s, i + 1, f[1..]);
      assert s[i..][1..] == s[i + 1..];
    }
  }

  /** The length of the longest token starting at `i`, or 0 if none does. */
  function TokenLen(s: string, i: nat, t: Token): (n: nat)
    requires i <= |s|
    ensures i + n <= |s|
  {
    match t
    case Run(k) => RunLen(s, i, k)
    case DigitsAround(m) =>
      var a := RunLen(s, i, Digit);
      if 0 < a && i + a < |s| && s[i + a] == m then
        var b := RunLen(s, i + a + 1, Digit);
        if 0 < b then a + 1 + b else 0
      else 0
    case Char(c) => if i < |s| && s[i] == c then 1 else 0
  }

  function GapLen(s: string, i: nat, g: Gap): (n: nat)
    requires i <= |s|
    ensures i + n <= |s|
  {
    if g == NoGap then 0 else RunLen(s, i, Space)
  }

  /** The gap and token lengths the regular expression engine settles on when the pattern is
      tried at position `i` (the longest gap, then the longest token), or None if it fails there. */
  function MatchSpan(s: string, i: nat, p: FlagPattern): (r: Option<(nat, nat)>)
    requires i <= |s|
    ensures r.Some? ==> i + |p.flag| + r.value.0 + r.value.1 <= |s|
  {
    if FlagAt(s, i, p.flag) then
      var j := i + |p.flag|;
      var g := GapLen(s, j, p.gap);
      var t := TokenLen(s, j + g, p.token);
      if (p.gap == SomeSpaces && g == 0) || t == 0 then None else Some((g, t))
    else None
  }

  /** The value captured when the pattern is tried at position `i`, or None if it fails there. */
  function MatchAt(s: string, i: nat, p: FlagPattern): Option<string>
    requires i <= |s|
  {
    var m := MatchSpan(s, i, p);
    if m.None? then None
    else
      var j := i + |p.flag| + m.value.0;
      Some(s[j..j + m.value.1])
  }

  /** The first position at or after `i` where the pattern matches. */
  function SearchFrom(s: string, i: nat, p: FlagPattern): (r: Option<nat>)
    requires i <= |s|
    ensures r.Some? ==> i <= r.value <= |s|
    decreases |s| - i
  {
    if MatchSpan(s, i, p).Some? then Some(i)
    else if i == |s| then None
    else SearchFrom(s, i + 1, p)
  }

  /** `SearchFrom` finds the first position where the scanner succeeds. */
  lemma {:induction false} SearchFromFirst(s: string, i: nat, p: FlagPattern)
    requires i <= |s|
    ensures SearchFrom(s, i, p).Some? ==> MatchSpan(s, SearchFrom(s, i, p).value, p).Some?
    ensures SearchFrom(s, i, p).Some? ==>
              forall j :: i <= j < SearchFrom(s, i, p).value ==> MatchSpan(s, j, p).None?
    ensures SearchFrom(s, i, p).None? ==> forall j :: i <= j <= |s| ==> MatchSpan(s, j, p).None?
    decreases |s| - i
  {
    if MatchSpan(s, i, p).None? && i < |s| {
      SearchFromFirst(s, i + 1, p);
    }
  }

  /** The flag occurs at the same place whatever text comes before it. */
  lemma FlagAtShift(a: string, b: string, i: nat, f: string)
    requires i <= |b|
    ensures FlagAt(a + b, |a| + i, f) == FlagAt(b, i, f)
  {
    FlagAtIsPrefix(a + b, |a| + i, f);
    FlagAtIsPrefix(b, i, f);
    assert (a + b)[|a| + i..] == b[i..];
  }

  /** A token is the same whatever text comes before it. */
  lemma TokenLenShift(a: string, b: string, i: nat, t: Token)
    requires i <= |b|
    ensures TokenLen(a + b, |a| + i, t) == TokenLen(b, i, t)
  {
    match t
    case Run(k) =>
      RunLenShift(a, b, i, k);
    case DigitsAround(m) =>
      RunLenShift(a, b, i, Digit);
      var n := RunLen(b, i, Digit);
      if i + n < |b| {
        assert (a + b)[|a| + i + n] == b[i + n];
        RunLenShift(a, b, i + n + 1, Digit);
      }
    case Char(c) =>
      if i < |b| {
        assert (a + b)[|a| + i] == b[i];
      }
  }

  /** The pattern matches at the same place whatever text comes before it. */
  lemma MatchSpanShift(a: string, b: string, i: nat, p: FlagPattern)
    requires i <= |b|
    ensures MatchSpan(a + b, |a| + i, p) == MatchSpan(b, i, p)
  {
    FlagAtShift(a, b, i, p.flag);
    if FlagAt(b, i, p.flag) {
      var j := i + |p.flag|;
      RunLenShift(a, b, j, Space);
      TokenLenShift(a, b, j + GapLen(b, j, p.gap), p.token);
    }
  }

  /** The pattern captures the same value whatever text comes before it. */
  lemma MatchAtShift(a: string, b: string, i: nat, p: FlagPattern)
    requires i <= |b|
    ensures MatchAt(a + b, |a| + i, p) == MatchAt(b, i, p)
  {
    MatchSpanShift(a, b, i, p);
    if MatchSpan(b, i, p).Some? {
      var j := i + |p.flag| + MatchSpan(b, i, p).value.0;
      var t := MatchSpan(b, i, p).value.1;
      assert (a + b)[|a| + j..|a| + j + t] == b[j..j + t];
    }
  }

  /** The search finds the same position, moved by the length of the text put in front. */
  lemma {:induction false} SearchFromShift(a: string, b: string, i: nat, p: FlagPattern)
    requires i <= |b|
    ensures SearchFrom(a + b, |a| + i, p) ==
              match SearchFrom(b, i, p)
              case None => None
              case Some(k) => Some(|a| + k)
    decreases |b| - i
  {
    MatchSpanShift(a, b, i, p);
    if MatchSpan(b, i, p).None? && i < |b| {
      SearchFromShift(a, b, i + 1, p);
    }
  }

  /** Text in front that the search passes over does not change what is found. */
  lemma SearchPast(a: string, b: string, p: FlagPattern)
    requires WellFormed(p) && SearchFrom(a + b, 0, p) == SearchFrom(a + b, |a|, p)
    ensures Search(a + b, p) == Search(b, p)
  {
    SearchFromShift(a, b, 0, p);
    if SearchFrom(b, 0, p).Some? {
      MatchAtShift(a, b, SearchFrom(b, 0, p).value, p);
    }
  }

  /** Positions where the flag does not occur are passed over. */
  lemma {:induction false} SearchFromPastAll(s: string, i: nat, j: nat, p: FlagPattern)
    requires i <= j <= |s|
    requires forall k :: i <= k < j ==> !FlagAt(s, k, p.flag)
    ensures SearchFrom(s, i, p) == SearchFrom(s, j, p)
    decreases j - i
  {
    if i < j {
      SearchFromPastAll(s, i + 1, j, p);
    }
  }

  /** Text in front without the flag's first character does not change what is found. */
  lemma SearchPastPlain(a: string, b: string, p: FlagPattern)
    requires WellFormed(p) && p.flag != [] && p.flag[0] !in a
    ensures Search(a + b, p) == Search(b, p)
  {
    forall k | 0 <= k < |a| ensures !FlagAt(a + b, k, p.flag) {
      assert (a + b)[k] == a[k];
    }
    SearchFromPastAll(a + b, 0, |a|, p);
    SearchPast(a, b, p);
  }

  /** A flag `--<name> <value>` of another name in front does not change what a `--` flag
      finds, when neither the name nor the value has a dash and the names differ at once. */
  lemma SearchPastFlag(name: string, value: string, b: string, p: FlagPattern)
    requires WellFormed(p) && |p.flag| >= 3 && p.flag[..2] == "--"
    requires name != [] && name[0] != p.flag[2] && '-' !in name && '-' !in value
    ensures Search("--" + name + " " + value + b, p) == Search(b, p)
  {
    var a := "--" + name + " " + value;
    var s := a + b;
    assert s[2] == name[0] && s[1] == '-';
    assert !FlagAt(s, 0, p.flag) by { assert s[..3] != p.flag[..3]; FlagAtIsPrefix(s, 0, p.flag); }
    assert !FlagAt(s, 1, p.flag) by { assert s[2] != p.flag[1]; FlagAtIsPrefix(s, 1, p.flag); }
    forall k | 2 <= k < |a| ensures !FlagAt(s, k, p.flag) {
      assert s[k] == a[2..][k - 2] && s[k] != '-';
    }
    SearchFromPastAll(s, 0, |a|, p);
    SearchPast(a, b, p);
  }

  /** A flag `<flag> <value>` at the start, with a value that is a whole token: the search
      captures the value. */
  lemma SearchFlagFirst(f: string, v: string, b: string, p: FlagPattern)
    requires WellFormed(p) && p.flag == f && p.gap != NoGap
    requires v != [] && !IsSpace(v[0]) && TokenLen(v + b, 0, p.token) == |v|
    ensures Search(f + " " + v + b, p) == Some(v)
  {
    var s := f + " " + v + b;
    var a := f + " ";
    assert s == a + (v + b);
    assert f <= s;
    FlagAtIsPrefix(s, 0, f);
    assert s[|f|] == ' ' && s[|f| + 1] == v[0];
    RunLenExact(s, |f|, Space, 1);
    TokenLenShift(a, v + b, 0, p.token);
    assert MatchSpan(s, 0, p) == Some((1, |v|));
    assert s[|f| + 1..|f| + 1 + |v|] == v;
  }

  /** A space and a flag of another name in front do not change what a `--` flag finds. */
  lemma SearchPastSpaceFlag(name: string, value: string, b: string, p: FlagPattern)
    requires WellFormed(p) && |p.flag| >= 3 && p.flag[..2] == "--"
    requires name != [] && name[0] != p.flag[2] && '-' !in name && '-' !in value
    ensures Search(" " + ("--" + name + " " + value) + b, p) == Search(b, p)
  {
    var f := "--" + name + " " + value;
    assert " " + f + b == " " + (f + b);
    SearchPastPlain(" ", f + b, p);
    SearchPastFlag(name, value, b, p);
  }

  /** A space and then the flag with a whole-token value: the search captures the value. */
  lemma SearchSpaceFlagFirst(f: string, v: string, b: string, p: FlagPattern)
    requires WellFormed(p) && p.flag == f && f != [] && f[0] != ' ' && p.gap != NoGap
    requires v != [] && !IsSpace(v[0]) && TokenLen(v + b, 0, p.token) == |v|
    ensures Search(" " + (f + " " + v) + b, p) == Some(v)
  {
    var g := f + " " + v;
    assert " " + g + b == " " + (g + b);
    SearchPastPlain(" ", g + b, p);
    SearchFlagFirst(f, v, b, p);
  }

  // ---------------------------------------------------------------------------------
  // The regular expressions read declaratively: some choice of gap and token lengths.

  /** The strings a token matches. */
  ghost predicate InTokenLanguage(v: string, t: Token) {
    match t
    case Run(k) => |v| > 0 && forall j :: 0 <= j < |v| ==> InClass(v[j], k)
    case DigitsAround(m) => exists c :: DigitsAroundAt(v, m, c)
    case Char(c) => v == [c]
  }

  /** `v` is digits, then `m` at position `c`, then digits, with at least one digit on each side. */
  ghost predicate DigitsAroundAt(v: string, m: char, c: int) {
    && 0 < c < |v| - 1 && v[c] == m
    && (forall j :: 0 <= j < c ==> IsDigit(v[j]))
    && (forall j :: c < j < |v| ==> IsDigit(v[j]))
  }

  ghost predicate GapAllows(w: string, g: Gap) {
    && (forall j :: 0 <= j < |w| ==> IsSpace(w[j]))
    && (g == NoGap ==> w == [])
    && (g == SomeSpaces ==> w != [])
  }

  /** The regular expression matches at `i` with a gap of `w` characters and a token of `t`. */
  ghost predicate MatchesWith(s: string, i: nat, p: FlagPattern, w: nat, t: nat) {
    && i + |p.flag| + w + t <= |s|
    && p.flag <= s[i..]
    && GapAllows(s[i + |p.flag|..i + |p.flag| + w], p.gap)
    && InTokenLanguage(s[i + |p.flag| + w..i + |p.flag| + w + t], p.token)
  }

  ghost predicate RegexMatchesAt(s: string, i: nat, p: FlagPattern) {
    exists w: nat, t: nat :: MatchesWith(s, i, p, w, t)
  }

  /** A token found by the scanner belongs to the token language. */
  lemma TokenLenInLanguage(s: string, i: nat, tok: Token)
    requires i <= |s|
    requires TokenLen(s, i, tok) > 0
    ensures InTokenLanguage(s[i..i + TokenLen(s, i, tok)], tok)
  {
    var n := TokenLen(s, i, tok);
    var v := s[i..i + n];
    match tok
    case Run(k) =>
      RunLenAll(s, i, k);
      assert forall j :: 0 <= j < |v| ==> v[j] == s[i + j];
    case DigitsAround(m) =>
      var a := RunLen(s, i, Digit);
      RunLenAll(s, i, Digit);
      RunLenAll(s, i + a + 1, Digit);
      assert v[a] == m;
      assert forall j :: 0 <= j < a ==> v[j] == s[i + j];
      assert forall j :: a < j < |v| ==> v[j] == s[i + j];
      assert DigitsAroundAt(v, m, a);
    case Char(c) =>
  }

  /** Every member of the token language that starts at `i` is at most as long as the
      scanner's token, which is therefore non-empty. */
  lemma TokenLenLongest(s: string, i: nat, tok: Token, t: nat)
    requires i + t <= |s|
    requires tok.DigitsAround? ==> !IsDigit(tok.mid)
    requires InTokenLanguage(s[i..i + t], tok)
    ensures 0 < t <= TokenLen(s, i, tok)
  {
    var v := s[i..i + t];
    match tok
    case Run(k) =>
      assert AllIn(s, i, i + t, k) by {
        forall j | i <= j < i + t ensures InClass(s[j], k) {
          assert v[j - i] == s[j];
        }
      }
      RunLenLongest(s, i, k, t);
    case DigitsAround(m) =>
      var c :| DigitsAroundAt(v, m, c);
      assert AllIn(s, i, i + c, Digit) by {
        forall j | i <= j < i + c ensures InClass(s[j], Digit) {
          assert v[j - i] == s[j];
        }
      }
      assert s[i + c] == v[c];
      RunLenExact(s, i, Digit, c);
      assert AllIn(s, i + c + 1, i + t, Digit) by {
        forall j | i + c + 1 <= j < i + t ensures InClass(s[j], Digit) {
          assert v[j - i] == s[j];
        }
      }
      RunLenLongest(s, i + c + 1, Digit, t - c - 1);
    case Char(ch) =>
      assert v[0] == s[i];
  }

  lemma GapLenAllowed(s: string, j: nat, g: Gap)
    requires j <= |s|
    requires g == SomeSpaces ==> GapLen(s, j, g) > 0
    ensures GapAllows(s[j..j + GapLen(s, j, g)], g)
  {
    var w := s[j..j + GapLen(s, j, g)];
    RunLenAll(s, j, Space);
    forall x | 0 <= x < |w| ensures IsSpace(w[x]) {
      assert w[x] == s[j + x];
      assert InClass(s[j + x], Space);
    }
  }

  /** Where the scanner succeeds, the regular expression matches with the scanner's gap and
      token lengths. */
  lemma ScannerMatchIsRegexMatch(s: string, i: nat, p: FlagPattern)
    requires i <= |s|
    requires MatchSpan(s, i, p).Some?
    ensures MatchesWith(s, i, p, MatchSpan(s, i, p).value.0, MatchSpan(s, i, p).value.1)
  {
    var j := i + |p.flag|;
    FlagAtIsPrefix(s, i, p.flag);
    TokenLenInLanguage(s, j + GapLen(s, j, p.gap), p.token);
    GapLenAllowed(s, j, p.gap);
  }

  /** Where the regular expression matches with some gap and token lengths, the scanner
      succeeds with the same gap and a token at least as long: greedy matching captures
      the longest token. */
  lemma RegexMatchIsScannerMatch(s: string, i: nat, p: FlagPattern, w: nat, t: nat)
    requires WellFormed(p)
    requires MatchesWith(s, i, p, w, t)
    ensures MatchSpan(s, i, p).Some?
    ensures MatchSpan(s, i, p).value.0 == w && t <= MatchSpan(s, i, p).value.1
  {
    var j := i + |p.flag|;
    FlagAtIsPrefix(s, i, p.flag);
    TokenLenLongest(s, j + w, p.token, t);
    TokenStartsWithNonSpace(s[j + w..j + w + t], p);
    GapLenExact(s, j, p.gap, w, s[j + w..j + w + t]);
    assert MatchSpan(s, i, p) == Some((w, TokenLen(s, j + w, p.token)));
  }

  /** A gap the regular expression allows, followed by a token that does not start with
      whitespace, is exactly the gap the scanner skips. */
  lemma GapLenExact(s: string, j: nat, g: Gap, w: nat, tok: string)
    requires j + w + |tok| <= |s| && tok == s[j + w..j + w + |tok|]
    requires GapAllows(s[j..j + w], g)
    requires tok != [] && !IsSpace(tok[0])
    ensures GapLen(s, j, g) == w
  {
    var gap := s[j..j + w];
    assert tok[0] == s[j + w];
    if g == NoGap {
      assert |gap| == 0;
    } else {
      assert AllIn(s, j, j + w, Space) by {
        forall x | j <= x < j + w ensures InClass(s[x], Space) {
          assert gap[x - j] == s[x];
        }
      }
      RunLenExact(s, j, Space, w);
    }
  }

  lemma TokenNonEmpty(v: string, t: Token)
    requires InTokenLanguage(v, t)
    ensures v != []
  {
    if t.DigitsAround? {
      var c :| DigitsAroundAt(v, t.mid, c);
    }
  }

  /** A member of a well-formed token's language is non-empty and does not start with
      whitespace. */
  lemma TokenStartsWithNonSpace(v: string, p: FlagPattern)
    requires WellFormed(p) && InTokenLanguage(v, p.token)
    ensures v != [] && !IsSpace(v[0])
  {
    match p.token
    case Run(k) =>
    case DigitsAround(m) =>
      var c :| DigitsAroundAt(v, m, c);
      assert IsDigit(v[0]);
    case Char(ch) =>
  }

  lemma RegexMatchesWith(s: string, i: nat, p: FlagPattern, w: nat, t: nat)
    requires MatchesWith(s, i, p, w, t)
    ensures RegexMatchesAt(s, i, p)
  {
  }

  /** The scanner agrees with the regular expression: it succeeds at `i` exactly when some
      gap and token lengths make the regular expression match there. */
  lemma MatchAtIsRegexMatch(s: string, i: nat, p: FlagPattern)
    requires i <= |s| && WellFormed(p)
    ensures MatchSpan(s, i, p).Some? <==> RegexMatchesAt(s, i, p)
  {
    if MatchSpan(s, i, p).Some? {
      ScannerMatchIsRegexMatch(s, i, p);
      RegexMatchesWith(s, i, p, MatchSpan(s, i, p).value.0, MatchSpan(s, i, p).value.1);
    }
    if RegexMatchesAt(s, i, p) {
      var w: nat, t: nat :| MatchesWith(s, i, p, w, t);
      RegexMatchIsScannerMatch(s, i, p, w, t);
    }
  }

  /** Python's backtracking matcher tried at `i` captures `v`: the regular expression matches
      there with `v` as its token, and no match at `i` has a longer token (the greedy choice). */
  ghost predicate CapturesAt(s: string, i: nat, p: FlagPattern, v: string) {
    && (exists w: nat :: MatchesWith(s, i, p, w, |v|) && v == s[i + |p.flag| + w..i + |p.flag| + w + |v|])
    && (forall w: nat, t: nat :: MatchesWith(s, i, p, w, t) ==> t <= |v|)
  }

  /** `re.search(p, s)`: the value captured at the first position where the pattern matches. */
  function Search(s: string, p: FlagPattern): Option<string>
    requires WellFormed(p)
  {
    match SearchFrom(s, 0, p)
    case None => None
    case Some(i) => MatchAt(s, i, p)
  }

  /** `Search` agrees with Python's `re.search`: it finds nothing exactly when the regular
      expression matches nowhere, and otherwise returns what the backtracking matcher captures
      at the leftmost match, a member of the token language. */
  lemma SearchSpec(s: string, p: FlagPattern)
    requires WellFormed(p)
    ensures Search(s, p).None? <==> forall i :: 0 <= i <= |s| ==> !RegexMatchesAt(s, i, p)
    ensures Search(s, p).Some? ==> InTokenLanguage(Search(s, p).value, p.token)
    ensures Search(s, p).Some? ==>
              exists i :: 0 <= i <= |s| && CapturesAt(s, i, p, Search(s, p).value)
                          && forall j :: 0 <= j < i ==> !RegexMatchesAt(s, j, p)
  {
    SearchFromFirst(s, 0, p);
    match SearchFrom(s, 0, p)
    case None =>
      NoScannerMatchNoRegexMatch(s, p, |s| + 1);
    case Some(i) =>
      ScannerMatchCaptures(s, i, p);
      ScannerValueIsLongest(s, i, p);
      NoScannerMatchNoRegexMatch(s, p, i);
  }

  /** `bool(re.search(p, s))`: the pattern matches somewhere. */
  predicate Found(s: string, p: FlagPattern) {
    SearchFrom(s, 0, p).Some?
  }

  /** `Found` holds exactly when the regular expression matches at some position. */
  lemma FoundSpec(s: string, p: FlagPattern)
    requires WellFormed(p)
    ensures Found(s, p) <==> exists i :: 0 <= i <= |s| && RegexMatchesAt(s, i, p)
  {
    SearchFromFirst(s, 0, p);
    if Found(s, p) {
      ScannerMatchCaptures(s, SearchFrom(s, 0, p).value, p);
    } else {
      NoScannerMatchNoRegexMatch(s, p, |s| + 1);
    }
  }

  lemma NoScannerMatchNoRegexMatch(s: string, p: FlagPattern, n: nat)
    requires WellFormed(p)
    requires forall j :: 0 <= j <= |s| && j < n ==> MatchSpan(s, j, p).None?
    ensures forall i :: 0 <= i <= |s| && i < n ==> !RegexMatchesAt(s, i, p)
  {
    forall i | 0 <= i <= |s| && i < n ensures !RegexMatchesAt(s, i, p) {
      MatchAtIsRegexMatch(s, i, p);
    }
  }

  /** Where the scanner succeeds, the regular expression matches there and the scanner's
      value belongs to the token language. */
  lemma ScannerMatchCaptures(s: string, i: nat, p: FlagPattern)
    requires i <= |s| && WellFormed(p) && MatchSpan(s, i, p).Some?
    ensures RegexMatchesAt(s, i, p)
    ensures MatchAt(s, i, p).Some? && InTokenLanguage(MatchAt(s, i, p).value, p.token)
  {
    var w, t := MatchSpan(s, i, p).value.0, MatchSpan(s, i, p).value.1;
    ScannerMatchIsRegexMatch(s, i, p);
    RegexMatchesWith(s, i, p, w, t);
    MatchAtValue(s, i, p);
    MatchedToken(s, i, p, w, t);
  }

  lemma MatchAtValue(s: string, i: nat, p: FlagPattern)
    requires i <= |s| && MatchSpan(s, i, p).Some?
    ensures var j := i + |p.flag| + MatchSpan(s, i, p).value.0;
            MatchAt(s, i, p) == Some(s[j..j + MatchSpan(s, i, p).value.1])
  {
  }

  lemma MatchedToken(s: string, i: nat, p: FlagPattern, w: nat, t: nat)
    requires MatchesWith(s, i, p, w, t)
    ensures var j := i + |p.flag| + w; InTokenLanguage(s[j..j + t], p.token)
  {
  }

  /** The scanner's value is what the backtracking matcher captures at `i`. */
  lemma ScannerValueIsLongest(s: string, i: nat, p: FlagPattern)
    requires i <= |s| && WellFormed(p) && MatchSpan(s, i, p).Some?
    ensures MatchAt(s, i, p).Some? && CapturesAt(s, i, p, MatchAt(s, i, p).value)
  {
    var w, t := MatchSpan(s, i, p).value.0, MatchSpan(s, i, p).value.1;
    ScannerMatchIsRegexMatch(s, i, p);
    var j := i + |p.flag| + w;
    var v := s[j..j + t];
    assert MatchAt(s, i, p) == Some(v) && |v| == t;
    forall w': nat, t': nat | MatchesWith(s, i, p, w', t') ensures t' <= t {
      RegexMatchIsScannerMatch(s, i, p, w', t');
    }
  }

  // ---------------------------------------------------------------------------------
  // `(.*?)(?=\s+--)`: the prompt prefix of a tag description.

  /** The lookahead `(?=\s+--)` as the scanner checks it: the whitespace run at `k` is
      non-empty and followed by "--". */
  predicate DashesAfterSpaces(s: string, k: nat)
    requires k <= |s|
  {
    var w := RunLen(s, k, Space);
    0 < w && "--" <= s[k + w..]
  }

  /** The lookahead read declaratively: some non-empty whitespace run at `k` is followed by "--". */
  ghost predicate LookaheadAt(s: string, k: nat) {
    exists w: nat :: SpacesThenDashes(s, k, w)
  }

  ghost predicate SpacesThenDashes(s: string, k: nat, w: nat) {
    && 0 < w && k + w <= |s|
    && (forall j :: k <= j < k + w ==> IsSpace(s[j]))
    && "--" <= s[k + w..]
  }

  lemma DashesAfterSpacesIsLookahead(s: string, k: nat)
    requires k <= |s|
    ensures DashesAfterSpaces(s, k) <==> LookaheadAt(s, k)
  {
    if LookaheadAt(s, k) {
      var w: nat :| SpacesThenDashes(s, k, w);
      assert s[k + w] == '-';
      assert AllIn(s, k, k + w, Space);
      RunLenExact(s, k, Space, w);
    }
    if DashesAfterSpaces(s, k) {
      RunLenAll(s, k, Space);
      assert SpacesThenDashes(s, k, RunLen(s, k, Space));
    }
  }

  /** The end of the shortest prefix of `s[k..]` that has no newline and is followed by
      whitespace and "--" (the lazy `.*?` does not cross a newline). */
  function PromptEndFrom(s: string, k: nat): (r: Option<nat>)
    requires k <= |s|
    ensures r.Some? ==> k <= r.value <= |s|
    decreases |s| - k
  {
    if DashesAfterSpaces(s, k) then Some(k)
    else if k < |s| && s[k] != '\n' then PromptEndFrom(s, k + 1)
    else None
  }

  /** When `PromptEndFrom` succeeds it stops at the first position where the lookahead holds,
      with no newline before it. */
  lemma {:induction false} PromptEndFromFirst(s: string, k: nat)
    requires k <= |s|
    ensures var r := PromptEndFrom(s, k);
            r.Some? ==> DashesAfterSpaces(s, r.value) && '\n' !in s[k..r.value]
                        && (forall j :: k <= j < r.value ==> !DashesAfterSpaces(s, j))
    decreases |s| - k
  {
    if DashesAfterSpaces(s, k) {
      assert s[k..k] == [];
    } else if k < |s| && s[k] != '\n' {
      PromptEndFromFirst(s, k + 1);
      if PromptEndFrom(s, k).Some? {
        var r := PromptEndFrom(s, k).value;
        assert s[k..r] == [s[k]] + s[k + 1..r];
      }
    }
  }

  /** When `PromptEndFrom` fails the lookahead holds nowhere before the first newline. */
  lemma {:induction false} PromptEndFromNone(s: string, k: nat)
    requires k <= |s|
    ensures PromptEndFrom(s, k).None? ==>
              forall j :: k <= j <= |s| && '\n' !in s[k..j] ==> !DashesAfterSpaces(s, j)
    decreases |s| - k
  {
    if DashesAfterSpaces(s, k) {
    } else if k < |s| && s[k] != '\n' {
      PromptEndFromNone(s, k + 1);
      forall j | k + 1 <= j <= |s|
        ensures s[k..j] == [s[k]] + s[k + 1..j]
      {
      }
    } else {
      forall j | k < j <= |s|
        ensures s[k] in s[k..j]
      {
        assert s[k..j][0] == s[k];
      }
    }
  }

  /** Positions where the lookahead fails, on the first line, are passed over. */
  lemma {:induction false} PromptEndFromSkip(s: string, i: nat, j: nat)
    requires i <= j <= |s|
    requires forall k :: i <= k < j ==> s[k] != '\n' && !DashesAfterSpaces(s, k)
    ensures PromptEndFrom(s, i) == PromptEndFrom(s, j)
    decreases j - i
  {
    if i < j {
      PromptEndFromSkip(s, i + 1, j);
    }
  }

  /** A first line `a` without a double dash, ending in a character that is not whitespace,
      followed by whitespace and "--": the prompt is exactly `a`. */
  lemma PromptEndAt(a: string, b: string)
    requires a != [] && !IsSpace(a[|a| - 1]) && '\n' !in a
    requires forall m :: 0 < m < |a| ==> !(a[m - 1] == '-' && a[m] == '-')
    requires |b| >= 3 && IsSpace(b[0]) && b[1] == '-' && b[2] == '-'
    ensures PromptEnd(a + b) == Some(|a|)
  {
    var s := a + b;
    forall k | 0 <= k < |a|
      ensures s[k] != '\n' && !DashesAfterSpaces(s, k)
    {
      assert s[k] == a[k];
      assert s[|a| - 1] == a[|a| - 1];
      RunLenBefore(s, k, |a| - 1, Space);
      var w := RunLen(s, k, Space);
      if k + w + 1 < |a| {
        assert s[k + w] == a[k + w] && s[k + w + 1] == a[k + w + 1];
      } else {
        assert s[k + w + 1] == b[0];
      }
      assert s[k + w..][1] == s[k + w + 1];
    }
    PromptEndFromSkip(s, 0, |a|);
    RunLenExact(s, |a|, Space, 1);
    assert s[|a| + 1..][..2] == b[1..3];
  }

  /** `re.match(r'(.*?)(?=\s+--)', s)`: the end of group 1, or None when there is no match. */
  function PromptEnd(s: string): (r: Option<nat>)
    ensures r.Some? ==> r.value <= |s|
  {
    PromptEndFrom(s, 0)
  }

  /** The prompt ends at the first position, before any newline, where the lookahead holds;
      there is none exactly when the lookahead holds nowhere before the first newline. */
  lemma PromptEndSpec(s: string)
    ensures PromptEnd(s).Some? ==>
              var k := PromptEnd(s).value;
              '\n' !in s[..k] && LookaheadAt(s, k) && forall j :: 0 <= j < k ==> !LookaheadAt(s, j)
    ensures PromptEnd(s).None? <==> forall j :: 0 <= j <= |s| && '\n' !in s[..j] ==> !LookaheadAt(s, j)
  {
    PromptEndFromFirst(s, 0);
    PromptEndFromNone(s, 0);
    forall j | 0 <= j <= |s|
      ensures DashesAfterSpaces(s, j) <==> LookaheadAt(s, j)
      ensures s[0..j] == s[..j]
    {
      DashesAfterSpacesIsLookahead(s, j);
    }
  }

  // ---------------------------------------------------------------------------------
  // `re.split(r'(::[\s-]*[\d.]+\s*)', s)`: prompt/weight segments.

  /** `s[i..]` starts with "::". */
  predicate ColonsAt(s: string, i: nat) {
    i + 1 < |s| && s[i] == ':' && s[i + 1] == ':'
  }

  lemma ColonsAtIsPrefix(s: string, i: nat)
    requires i <= |s|
    ensures ColonsAt(s, i) <==> "::" <= s[i..]
  {
    if i + 2 <= |s| {
      assert s[i..][..2] == [s[i], s[i + 1]];
    }
  }

  /** The length of a weight separator `::[\s-]*[\d.]+\s*` starting at `i`, or 0 if none does. */
  function WeightSepLen(s: string, i: nat): (n: nat)
    requires i <= |s|
    ensures i + n <= |s|
    ensures n > 0 ==> ColonsAt(s, i) && n > 2
  {
    if ColonsAt(s, i) then
      var a := RunLen(s, i + 2, SpaceOrDash);
      var d := RunLen(s, i + 2 + a, DigitOrDot);
      if d == 0 then 0 else 2 + a + d + RunLen(s, i + 2 + a + d, Space)
    else 0
  }

  /** `::[\s-]*[\d.]+\s*` matches at `i` with `a` dash-or-space, `d` digit-or-dot and `w`
      whitespace characters. */
  ghost predicate WeightSepMatch(s: string, i: nat, a: nat, d: nat, w: nat) {
    && i + 2 + a + d + w <= |s|
    && s[i] == ':' && s[i + 1] == ':'
    && 0 < d
    && AllIn(s, i + 2, i + 2 + a, SpaceOrDash)
    && AllIn(s, i + 2 + a, i + 2 + a + d, DigitOrDot)
    && AllIn(s, i + 2 + a + d, i + 2 + a + d + w, Space)
  }

  /** The separator regex matches at `i`. */
  ghost predicate WeightSepRegexAt(s: string, i: nat) {
    exists a: nat, d: nat, w: nat :: WeightSepMatch(s, i, a, d, w)
  }

  /** The longest match of the separator regex at `i` is `n` characters long. Because the
      three classes follow each other with no character able to end one run and start the
      next, Python's greedy backtracking settles on this longest match. */
  ghost predicate LongestWeightSepAt(s: string, i: nat, n: nat) {
    && (exists a: nat, d: nat, w: nat :: WeightSepMatch(s, i, a, d, w) && 2 + a + d + w == n)
    && forall a: nat, d: nat, w: nat :: WeightSepMatch(s, i, a, d, w) ==> 2 + a + d + w <= n
  }

  /** Any match takes the whole dash-or-space run, and leaves whitespace only after the whole
      digit-or-dot run. */
  lemma WeightSepMatchRuns(s: string, i: nat, a: nat, d: nat, w: nat)
    requires WeightSepMatch(s, i, a, d, w)
    ensures a == RunLen(s, i + 2, SpaceOrDash)
    ensures d <= RunLen(s, i + 2 + a, DigitOrDot)
    ensures d < RunLen(s, i + 2 + a, DigitOrDot) ==> w == 0
    ensures w <= RunLen(s, i + 2 + a + d, Space)
  {
    RunLenLongest(s, i + 2, SpaceOrDash, a);
    assert InClass(s[i + 2 + a], DigitOrDot);
    RunLenBefore(s, i + 2, i + 2 + a, SpaceOrDash);
    RunLenLongest(s, i + 2 + a, DigitOrDot, d);
    RunLenLongest(s, i + 2 + a + d, Space, w);
    if d < RunLen(s, i + 2 + a, DigitOrDot) {
      RunLenAll(s, i + 2 + a, DigitOrDot);
      assert InClass(s[i + 2 + a + d], DigitOrDot);
      assert RunLen(s, i + 2 + a + d, Space) == 0;
    }
  }

  /** `WeightSepLen` is 0 exactly where the separator regex does not match, and is otherwise
      the length of its longest match. */
  lemma WeightSepLenSpec(s: string, i: nat)
    requires i <= |s|
    ensures WeightSepLen(s, i) == 0 <==> !WeightSepRegexAt(s, i)
    ensures WeightSepLen(s, i) > 0 ==> LongestWeightSepAt(s, i, WeightSepLen(s, i))
  {
    if ColonsAt(s, i) {
      var a := RunLen(s, i + 2, SpaceOrDash);
      var d := RunLen(s, i + 2 + a, DigitOrDot);
      var w := RunLen(s, i + 2 + a + d, Space);
      RunLenAll(s, i + 2, SpaceOrDash);
      RunLenAll(s, i + 2 + a, DigitOrDot);
      RunLenAll(s, i + 2 + a + d, Space);
      forall a': nat, d': nat, w': nat | WeightSepMatch(s, i, a', d', w')
        ensures d > 0 && 2 + a' + d' + w' <= 2 + a + d + w
      {
        WeightSepMatchRuns(s, i, a', d', w');
      }
      if d > 0 {
        assert WeightSepMatch(s, i, a, d, w);
      }
    }
  }

  /** `parts` is cut from `s[o..]` where `re.split` cuts it: a text piece at no position of
      which a separator starts, then either the end of `s`, or a separator piece as long as
      the separator (by `WeightSepLenSpec`, the longest match of the regex) where the text
      piece stops, followed by the pieces cut from what comes after it. Only positions and
      lengths are stated; with `Concat(parts) == s[o..]` they fix the pieces. */
  ghost predicate CutsFrom(s: string, o: nat, parts: seq<string>)
    decreases |parts|
  {
    && parts != []
    && o + |parts[0]| <= |s|
    && (forall p :: o <= p < o + |parts[0]| ==> WeightSepLen(s, p) == 0)
    && if |parts| == 1 then o + |parts[0]| == |s|
       else
         var j := o + |parts[0]|;
         && |parts| >= 3
         && 0 < WeightSepLen(s, j) == |parts[1]|
         && CutsFrom(s, j + WeightSepLen(s, j), parts[2..])
  }

  function Concat(parts: seq<string>): string
    decreases |parts|
  {
    if parts == [] then "" else parts[0] + Concat(parts[1..])
  }

  lemma ConcatAppend(a: seq<string>, b: seq<string>)
    ensures Concat(a + b) == Concat(a) + Concat(b)
    decreases |a|
  {
    if a != [] {
      assert (a + b)[0] == a[0];
      assert (a + b)[1..] == a[1..] + b;
      ConcatAppend(a[1..], b);
    } else {
      assert a + b == b;
    }
  }

  /** Every odd-numbered piece (the captured separators) starts with "::". */
  ghost predicate SeparatorsAtOdd(parts: seq<string>)
    decreases |parts|
  {
    |parts| < 2 || ("::" <= parts[1] && SeparatorsAtOdd(parts[2..]))
  }

  /** The pieces of `s[start..]` when scanning for separators from `i`: text, separator, text, ... */
  function SplitFrom(s: string, start: nat, i: nat): (parts: seq<string>)
    requires start <= i <= |s|
    ensures |parts| % 2 == 1
    decreases |s| - i, 1
  {
    if i == |s| then [s[start..]] else SplitAt(s, start, i, WeightSepLen(s, i))
  }

  /** The scan at `i`, where a separator of length `n` starts (none when `n` is 0). */
  function SplitAt(s: string, start: nat, i: nat, n: nat): (parts: seq<string>)
    requires start <= i < |s| && i + n <= |s|
    ensures |parts| % 2 == 1
    decreases |s| - i, 0
  {
    if n == 0 then SplitFrom(s, start, i + 1)
    else [s[start..i], s[i..i + n]] + SplitFrom(s, i + n, i + n)
  }

  /** The pieces concatenate back to the text they were cut from. */
  lemma {:induction false} SplitFromConcat(s: string, start: nat, i: nat)
    requires start <= i <= |s|
    ensures Concat(SplitFrom(s, start, i)) == s[start..]
    decreases |s| - i, 1
  {
    if i == |s| {
      assert [s[start..]][1..] == [];
    } else {
      SplitAtConcat(s, start, i, WeightSepLen(s, i));
    }
  }

  lemma {:induction false} SplitAtConcat(s: string, start: nat, i: nat, n: nat)
    requires start <= i < |s| && i + n <= |s|
    ensures Concat(SplitAt(s, start, i, n)) == s[start..]
    decreases |s| - i, 0
  {
    if n == 0 {
      SplitFromConcat(s, start, i + 1);
    } else {
      SplitFromConcat(s, i + n, i + n);
      ConcatTextAndSeparator(s, start, i, i + n, SplitFrom(s, i + n, i + n));
    }
  }

  /** A text piece and a separator piece in front of pieces that make up the rest of `s`. */
  lemma ConcatTextAndSeparator(s: string, start: nat, i: nat, j: nat, rest: seq<string>)
    requires start <= i <= j <= |s| && Concat(rest) == s[j..]
    ensures Concat([s[start..i], s[i..j]] + rest) == s[start..]
  {
    var parts := [s[start..i], s[i..j]] + rest;
    assert parts[1..] == [s[i..j]] + rest;
    assert parts[1..][1..] == rest;
    assert s[start..] == s[start..i] + (s[i..j] + s[j..]);
  }

  /** Every odd-numbered piece is a separator: it starts with "::". */
  lemma {:induction false} SplitFromSeparators(s: string, start: nat, i: nat)
    requires start <= i <= |s|
    ensures SeparatorsAtOdd(SplitFrom(s, start, i))
    decreases |s| - i
  {
    if i < |s| {
      var n := WeightSepLen(s, i);
      if n == 0 {
        SplitFromSeparators(s, start, i + 1);
      } else {
        var rest := SplitFrom(s, i + n, i + n);
        SplitFromSeparators(s, i + n, i + n);
        assert s[i..i + n][..2] == "::";
        assert SplitAt(s, start, i, n) == [s[start..i], s[i..i + n]] + rest;
        assert ([s[start..i], s[i..i + n]] + rest)[2..] == rest;
      }
    }
  }

  /** The text up to a separator at `j`, and that separator, in front of a valid cut. */
  lemma CutsFromCons(s: string, o: nat, j: nat, rest: seq<string>)
    requires o <= j <= |s|
    requires forall p :: o <= p < j ==> WeightSepLen(s, p) == 0
    requires 0 < WeightSepLen(s, j) && CutsFrom(s, j + WeightSepLen(s, j), rest)
    ensures CutsFrom(s, o, [s[o..j], s[j..j + WeightSepLen(s, j)]] + rest)
  {
    var parts := [s[o..j], s[j..j + WeightSepLen(s, j)]] + rest;
    assert o + |parts[0]| == j;
    assert parts[2..] == rest;
  }

  /** The scan cuts where `re.split` cuts: from a position that only text has been scanned up
      to, the result is a valid cut of the rest. */
  lemma {:induction false} SplitFromCuts(s: string, start: nat, i: nat)
    requires start <= i <= |s|
    requires forall p :: start <= p < i ==> WeightSepLen(s, p) == 0
    ensures CutsFrom(s, start, SplitFrom(s, start, i))
    decreases |s| - i
  {
    if i == |s| {
      CutsFromEnd(s, start);
    } else if WeightSepLen(s, i) == 0 {
      SplitFromSkip(s, start, i);
      SplitFromCuts(s, start, i + 1);
    } else {
      SplitFromCuts(s, i + WeightSepLen(s, i), i + WeightSepLen(s, i));
      CutsFromCons(s, start, i, SplitFrom(s, i + WeightSepLen(s, i), i + WeightSepLen(s, i)));
      SplitFromSeparator(s, start, i, WeightSepLen(s, i));
    }
  }

  /** The last text piece is a valid cut. */
  lemma CutsFromEnd(s: string, start: nat)
    requires start <= |s| && forall p :: start <= p < |s| ==> WeightSepLen(s, p) == 0
    ensures CutsFrom(s, start, SplitFrom(s, start, |s|))
  {
    assert SplitFrom(s, start, |s|) == [s[start..]];
  }

  /** Where no separator starts, the scan moves on. */
  lemma SplitFromSkip(s: string, start: nat, i: nat)
    requires start <= i < |s| && WeightSepLen(s, i) == 0
    ensures SplitFrom(s, start, i) == SplitFrom(s, start, i + 1)
  {
    assert SplitFrom(s, start, i) == SplitAt(s, start, i, 0);
  }

  /** The first position at or after `q` where a separator starts, or the end of `s`. */
  function NextSep(s: string, q: nat): (e: nat)
    requires q <= |s|
    ensures q <= e <= |s|
    ensures e < |s| ==> WeightSepLen(s, e) > 0
    decreases |s| - q
  {
    if q == |s| || WeightSepLen(s, q) > 0 then q else NextSep(s, q + 1)
  }

  /** A stretch free of separator starts that ends at the end of `s` or at a separator ends
      where `NextSep` says. */
  lemma {:induction false} NextSepAt(s: string, q: nat, e: nat)
    requires q <= e <= |s|
    requires forall p :: q <= p < e ==> WeightSepLen(s, p) == 0
    requires e == |s| || WeightSepLen(s, e) > 0
    ensures NextSep(s, q) == e
    decreases e - q
  {
    if q < e {
      NextSepAt(s, q + 1, e);
    }
  }

  /** The text piece of a valid cut ends at the next separator position, which is the end of
      `s` exactly when the cut stops there. */
  lemma CutsFromFirst(s: string, o: nat, parts: seq<string>)
    requires o <= |s| && CutsFrom(s, o, parts)
    ensures o + |parts[0]| == NextSep(s, o)
    ensures |parts| == 1 <==> NextSep(s, o) == |s|
  {
    NextSepAt(s, o, o + |parts[0]|);
  }

  /** A valid cut that goes on past its text piece: a separator piece, then a valid cut of what
      follows the separator. */
  lemma CutsFromTail(s: string, o: nat, j: nat, k: nat, parts: seq<string>)
    requires o <= |s| && CutsFrom(s, o, parts) && |parts| > 1 && j == o + |parts[0]|
    requires k == j + WeightSepLen(s, j)
    ensures |parts| >= 3 && |parts[1]| == WeightSepLen(s, j) && k <= |s|
    ensures CutsFrom(s, k, parts[2..])
  {
  }

  /** The lengths of the pieces. */
  function Lengths(parts: seq<string>): (r: seq<nat>)
    ensures |r| == |parts|
    decreases |parts|
  {
    if parts == [] then [] else [|parts[0]|] + Lengths(parts[1..])
  }

  lemma LengthsTwo(parts: seq<string>)
    requires |parts| >= 2
    ensures Lengths(parts) == [|parts[0]|, |parts[1]|] + Lengths(parts[2..])
  {
    assert parts[1..][0] == parts[1] && parts[1..][1..] == parts[2..];
  }

  /** Pieces with the same lengths and the same concatenation are the same pieces. */
  lemma {:induction false} SameLengthsSameConcat(a: seq<string>, b: seq<string>)
    requires Lengths(a) == Lengths(b) && Concat(a) == Concat(b)
    ensures a == b
    decreases |a|
  {
    if a != [] {
      assert |a[0]| == Lengths(a)[0] == |b[0]|;
      assert Lengths(a[1..]) == Lengths(a)[1..] == Lengths(b)[1..] == Lengths(b[1..]);
      var x, y := Concat(a[1..]), Concat(b[1..]);
      assert a[0] + x == b[0] + y;
      assert a[0] == (a[0] + x)[..|a[0]|];
      assert b[0] == (b[0] + y)[..|b[0]|];
      assert x == (a[0] + x)[|a[0]|..];
      assert y == (b[0] + y)[|b[0]|..];
      SameLengthsSameConcat(a[1..], b[1..]);
      assert a == [a[0]] + a[1..];
      assert b == [b[0]] + b[1..];
    }
  }

  /** The piece lengths read off the separator positions: text up to the next separator, then
      that separator, then the lengths for the rest. */
  function CutLens(s: string, o: nat): (r: seq<nat>)
    requires o <= |s|
    decreases |s| - o
  {
    var j := NextSep(s, o);
    if j == |s| then [|s| - o]
    else [j - o, WeightSepLen(s, j)] + CutLens(s, j + WeightSepLen(s, j))
  }

  /** Every valid cut of `s[o..]` has the lengths `CutLens` gives. */
  lemma {:induction false} CutsFromLens(s: string, o: nat, parts: seq<string>)
    requires o <= |s| && CutsFrom(s, o, parts)
    ensures Lengths(parts) == CutLens(s, o)
    decreases |parts|
  {
    var j := o + |parts[0]|;
    CutsFromFirst(s, o, parts);
    if |parts| > 1 {
      var k := j + WeightSepLen(s, j);
      CutsFromTail(s, o, j, k, parts);
      CutsFromLens(s, k, parts[2..]);
      CutLensStep(s, o, j, k, parts);
    }
  }

  lemma CutLensStep(s: string, o: nat, j: nat, k: nat, parts: seq<string>)
    requires o <= |s| && |parts| >= 3 && j == o + |parts[0]| && j == NextSep(s, o) && j < |s|
    requires |parts[1]| == WeightSepLen(s, j) && k == j + WeightSepLen(s, j)
    requires Lengths(parts[2..]) == CutLens(s, k)
    ensures Lengths(parts) == CutLens(s, o)
  {
    LengthsTwo(parts);
  }

  /** Scanning past text with no "::" in it cuts nothing. */
  lemma {:induction false} SplitFromSkips(s: string, start: nat, i: nat, j: nat)
    requires start <= i <= j <= |s|
    requires forall p :: i <= p < j ==> !("::" <= s[p..])
    ensures SplitFrom(s, start, i) == SplitFrom(s, start, j)
    decreases j - i
  {
    if i < j {
      ColonsAtIsPrefix(s, i);
      assert SplitFrom(s, start, i) == SplitAt(s, start, i, 0);
      SplitFromSkips(s, start, i + 1, j);
    }
  }

  /** Text without ':' is not cut. */
  lemma SplitFromNoColon(s: string, start: nat, i: nat, j: nat)
    requires start <= i <= j <= |s| && ':' !in s[i..j]
    ensures SplitFrom(s, start, i) == SplitFrom(s, start, j)
  {
    forall p | i <= p < j ensures !("::" <= s[p..]) {
      assert s[p] == s[i..j][p - i];
    }
    SplitFromSkips(s, start, i, j);
  }

  /** A separator of length `n` at `i` is cut out, with the text before it. */
  lemma SplitFromSeparator(s: string, start: nat, i: nat, n: nat)
    requires start <= i < |s| && 0 < n && i + n <= |s| && WeightSepLen(s, i) == n
    ensures SplitFrom(s, start, i) == [s[start..i], s[i..i + n]] + SplitFrom(s, i + n, i + n)
  {
  }

  /** A run is the same whatever text comes before it. */
  lemma {:induction false} RunLenShift(p: string, y: string, i: nat, k: CharClass)
    requires i <= |y|
    ensures RunLen(p + y, |p| + i, k) == RunLen(y, i, k)
    decreases |y| - i
  {
    if i < |y| {
      assert (p + y)[|p| + i] == y[i];
      RunLenShift(p, y, i + 1, k);
    }
  }

  /** A separator is the same whatever text comes before it. */
  lemma WeightSepLenShift(p: string, y: string, i: nat)
    requires i <= |y|
    ensures WeightSepLen(p + y, |p| + i) == WeightSepLen(y, i)
  {
    if i + 1 < |y| {
      assert (p + y)[|p| + i] == y[i] && (p + y)[|p| + i + 1] == y[i + 1];
    }
    if ColonsAt(y, i) {
      var a := RunLen(y, i + 2, SpaceOrDash);
      RunLenShift(p, y, i + 2, SpaceOrDash);
      var d := RunLen(y, i + 2 + a, DigitOrDot);
      RunLenShift(p, y, i + 2 + a, DigitOrDot);
      RunLenShift(p, y, i + 2 + a + d, Space);
    }
  }

  /** The pieces cut from `y` are the same whatever text comes before it. */
  lemma {:induction false} SplitFromShift(p: string, y: string, start: nat, i: nat)
    requires start <= i <= |y|
    ensures SplitFrom(p + y, |p| + start, |p| + i) == SplitFrom(y, start, i)
    decreases |y| - i, 1
  {
    var s := p + y;
    if i == |y| {
      assert s[|p| + start..] == y[start..];
    } else {
      WeightSepLenShift(p, y, i);
      SplitAtShift(p, y, start, i, WeightSepLen(y, i));
    }
  }

  lemma {:induction false} SplitAtShift(p: string, y: string, start: nat, i: nat, n: nat)
    requires start <= i < |y| && i + n <= |y|
    ensures SplitAt(p + y, |p| + start, |p| + i, n) == SplitAt(y, start, i, n)
    decreases |y| - i, 0
  {
    if n == 0 {
      SplitFromShift(p, y, start, i + 1);
      SplitAtSkipShift(p, y, start, i);
    } else {
      SplitFromShift(p, y, i + n, i + n);
      SplitAtCutShift(p, y, start, i, n);
    }
  }

  /** A position of `SplitAtShift` where no separator starts. */
  lemma SplitAtSkipShift(p: string, y: string, start: nat, i: nat)
    requires start <= i < |y|
    requires SplitFrom(p + y, |p| + start, |p| + i + 1) == SplitFrom(y, start, i + 1)
    ensures SplitAt(p + y, |p| + start, |p| + i, 0) == SplitAt(y, start, i, 0)
  {
  }

  /** One cut of `SplitAtShift`: the text and separator pieces are the same, and so is the rest. */
  lemma SplitAtCutShift(p: string, y: string, start: nat, i: nat, n: nat)
    requires start <= i < |y| && 0 < n && i + n <= |y|
    requires SplitFrom(p + y, |p| + i + n, |p| + i + n) == SplitFrom(y, i + n, i + n)
    ensures SplitAt(p + y, |p| + start, |p| + i, n) == SplitAt(y, start, i, n)
  {
    var s := p + y;
    var text, sep := y[start..i], y[i..i + n];
    assert s[|p| + start..|p| + i] == text;
    assert s[|p| + i..|p| + i + n] == sep;
    assert SplitAt(s, |p| + start, |p| + i, n) == [text, sep] + SplitFrom(s, |p| + i + n, |p| + i + n);
    assert SplitAt(y, start, i, n) == [text, sep] + SplitFrom(y, i + n, i + n);
  }

  /** The pieces cut from a suffix of `s` are the pieces cut from `s` from there on. */
  lemma SplitFromSuffix(s: string, j: nat)
    requires j <= |s|
    ensures SplitFrom(s, j, j) == WeightSplit(s[j..])
  {
    assert s == s[..j] + s[j..];
    SplitFromShift(s[..j], s[j..], 0, 0);
  }

  /** Text without ':' in front of a separator that is matched whole: `re.split` cuts off
      the text and the separator, then splits the rest. */
  lemma WeightSplitCut(s: string, i: nat, n: nat)
    requires i < |s| && ':' !in s[..i] && 0 < n && WeightSepLen(s, i) == n
    ensures WeightSplit(s) == [s[..i], s[i..i + n]] + WeightSplit(s[i + n..])
  {
    assert s[0..i] == s[..i];
    SplitFromNoColon(s, 0, 0, i);
    SplitFromSeparator(s, 0, i, n);
    SplitFromSuffix(s, i + n);
  }

  /** Text without ':' is one piece. */
  lemma WeightSplitNoColon(z: string)
    requires ':' !in z
    ensures WeightSplit(z) == [z]
  {
    SplitFromNoColon(z, 0, 0, |z|);
  }

  /** `re.split(r'(::[\s-]*[\d.]+\s*)', s)`: because the separator is captured, the result
      alternates text and separator and starts and ends with text. */
  function WeightSplit(s: string): (parts: seq<string>)
    ensures |parts| % 2 == 1
  {
    SplitFrom(s, 0, 0)
  }

  /** The pieces of `re.split` concatenate back to `s`, every odd-numbered one starts with
      "::", and they are a valid cut: no separator match starts inside a text piece, and each
      separator piece is the longest match where it starts. */
  lemma WeightSplitSpec(s: string)
    ensures Concat(WeightSplit(s)) == s
    ensures SeparatorsAtOdd(WeightSplit(s))
    ensures CutsFrom(s, 0, WeightSplit(s))
  {
    SplitFromConcat(s, 0, 0);
    SplitFromSeparators(s, 0, 0);
    SplitFromCuts(s, 0, 0);
    assert s[0..] == s;
  }

  /** `WeightSplit` is the only cut of `s` into pieces that concatenate back to `s` and are cut
      where `re.split` cuts. */
  lemma WeightSplitUnique(s: string, parts: seq<string>)
    requires Concat(parts) == s && CutsFrom(s, 0, parts)
    ensures parts == WeightSplit(s)
  {
    WeightSplitSpec(s);
    CutsFromLens(s, 0, parts);
    CutsFromLens(s, 0, WeightSplit(s));
    SameLengthsSameConcat(parts, WeightSplit(s));
  }

  /** Text without "::" is not split. */
  lemma WeightSplitUnweighted(s: string)
    requires forall p :: 0 <= p < |s| ==> !("::" <= s[p..])
    ensures WeightSplit(s) == [s]
  {
    SplitFromSkips(s, 0, 0, |s|);
    assert s[0..] == s;
  }

  /** `::\s*-`, searched for in a weight separator to detect a negative weight. */
  const NegativeWeightPattern := FlagPattern("::", AnySpaces, Char('-'))
}

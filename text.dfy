/** Python string operations used by the extractors, over ASCII.
    `\s`, `\d`, `\w`, `str.lower()` and `str.strip()` are Unicode-aware in Python;
    here they are restricted to their ASCII members. */
module Text {

  /** Whitespace for `\s` and `str.strip()`: \t \n \v \f \r, the separators \x1c..\x1f, and ' '. */
  predicate IsSpace(c: char) {
    9 <= c as int <= 13 || 28 <= c as int <= 32
  }

  /** `\d` */
  predicate IsDigit(c: char) {
    '0' <= c <= '9'
  }

  /** `\w` */
  predicate IsWordChar(c: char) {
    'a' <= c <= 'z' || 'A' <= c <= 'Z' || IsDigit(c) || c == '_'
  }

  function LowerChar(c: char): char {
    if 'A' <= c <= 'Z' then (c as int + 32) as char else c
  }

  /** `s.lower()` */
  function Lower(s: string): string {
    seq(|s|, i requires 0 <= i < |s| => LowerChar(s[i]))
  }

  lemma LowerAppend(a: string, b: string)
    ensures Lower(a + b) == Lower(a) + Lower(b)
  {
  }

  /** `sub in s` */
  predicate Contains(s: string, sub: string) {
    exists i :: 0 <= i <= |s| && sub <= s[i..]
  }

  /** `s.startswith(p)` */
  predicate StartsWith(s: string, p: string) {
    p <= s
  }

  /** `s.endswith(p)` */
  predicate EndsWith(s: string, p: string) {
    |p| <= |s| && s[|s| - |p|..] == p
  }

  /** The number of whitespace characters `s` starts with. */
  function LeadingSpaces(s: string): (n: nat)
    ensures n <= |s|
    ensures n == |s| || !IsSpace(s[n])
    decreases |s|
  {
    if s != [] && IsSpace(s[0]) then 1 + LeadingSpaces(s[1..]) else 0
  }

  lemma {:induction false} LeadingSpacesAreSpaces(s: string)
    ensures forall i :: 0 <= i < LeadingSpaces(s) ==> IsSpace(s[i])
    decreases |s|
  {
    if s != [] && IsSpace(s[0]) {
      LeadingSpacesAreSpaces(s[1..]);
    }
  }

  /** The number of whitespace characters `s` ends with. */
  function TrailingSpaces(s: string): (n: nat)
    ensures n <= |s|
    ensures n == |s| || !IsSpace(s[|s| - 1 - n])
    decreases |s|
  {
    if s != [] && IsSpace(s[|s| - 1]) then 1 + TrailingSpaces(s[..|s| - 1]) else 0
  }

  lemma {:induction false} TrailingSpacesAreSpaces(s: string)
    ensures forall i :: |s| - TrailingSpaces(s) <= i < |s| ==> IsSpace(s[i])
    decreases |s|
  {
    if s != [] && IsSpace(s[|s| - 1]) {
      TrailingSpacesAreSpaces(s[..|s| - 1]);
    }
  }

  predicate IsStripped(s: string) {
    s == [] || (!IsSpace(s[0]) && !IsSpace(s[|s| - 1]))
  }

  /** `s.strip()`: `s` without its leading and trailing whitespace. */
  function Strip(s: string): (r: string)
    ensures IsStripped(r)
    ensures IsStripped(s) ==> r == s
  {
    var a := LeadingSpaces(s);
    var t := s[a..];
    var r := t[..|t| - TrailingSpaces(t)];
    assert r != [] ==> r[0] == s[a];
    assert a < |s| ==> t != [] && !IsSpace(t[0]);
    TrailingSpacesAreSpaces(t);
    assert a < |s| ==> TrailingSpaces(t) < |t|;
    r
  }

  /** `s.strip()` is the middle of `s` between a whitespace prefix and a whitespace suffix,
      and it neither starts nor ends with whitespace. */
  lemma StripSpec(s: string)
    ensures exists a, b :: 0 <= a <= b <= |s| && Strip(s) == s[a..b]
                           && (forall i :: 0 <= i < a ==> IsSpace(s[i]))
                           && (forall i :: b <= i < |s| ==> IsSpace(s[i]))
  {
    var a := LeadingSpaces(s);
    var t := s[a..];
    var b := a + |t| - TrailingSpaces(t);
    LeadingSpacesAreSpaces(s);
    TrailingSpacesAreSpaces(t);
    assert forall i :: b <= i < |s| ==> s[i] == t[i - a];
    assert Strip(s) == s[a..b];
  }

  /** `s.strip()` is empty exactly when `s` is all whitespace. */
  lemma StripBlank(s: string)
    ensures Strip(s) == [] <==> forall i :: 0 <= i < |s| ==> IsSpace(s[i])
  {
    StripSpec(s);
    var a, b :| 0 <= a <= b <= |s| && Strip(s) == s[a..b]
                && (forall i :: 0 <= i < a ==> IsSpace(s[i]))
                && (forall i :: b <= i < |s| ==> IsSpace(s[i]));
    if Strip(s) != [] {
      assert !IsSpace(s[a]);
    }
  }

  /** One leading blank goes away, and nothing else. */
  lemma StripLeadingBlank(w: string)
    requires w != [] && IsStripped(w)
    ensures Strip([' '] + w) == w
  {
    var s := [' '] + w;
    assert s[1..] == w;
    assert LeadingSpaces(s) == 1;
    assert s[1..][..|w| - TrailingSpaces(w)] == w;
  }

  /** `sep.join(parts)` for a one-character separator. */
  function Join(parts: seq<string>, sep: char): string
    decreases |parts|
  {
    if |parts| == 0 then ""
    else if |parts| == 1 then parts[0]
    else parts[0] + [sep] + Join(parts[1..], sep)
  }

  /** `s.split(sep)` for a one-character separator: the pieces between the separators,
      empty ones included; the inverse of `Join`. */
  function Split(s: string, sep: char): (parts: seq<string>)
    ensures |parts| >= 1
    ensures forall i :: 0 <= i < |parts| ==> sep !in parts[i]
    ensures Join(parts, sep) == s
    decreases |s|
  {
    if s == [] then [""]
    else
      var rest := Split(s[1..], sep);
      if s[0] == sep then
        assert [sep] + Join(rest, sep) == s;
        [""] + rest
      else
        var parts := [[s[0]] + rest[0]] + rest[1..];
        assert parts[1..] == rest[1..];
        assert Join(parts, sep) == [s[0]] + Join(rest, sep);
        parts
  }

  /** A piece without the separator splits to itself. */
  lemma {:induction false} SplitNoSeparator(a: string, sep: char)
    requires sep !in a
    ensures Split(a, sep) == [a]
    decreases |a|
  {
    if a != [] {
      SplitNoSeparator(a[1..], sep);
      assert [a[0]] + a[1..] == a;
    }
  }

  /** Splitting at the first separator peels off the piece before it. */
  lemma {:induction false} SplitFirstPiece(a: string, b: string, sep: char)
    requires sep !in a
    ensures Split(a + [sep] + b, sep) == [a] + Split(b, sep)
    decreases |a|
  {
    var s := a + [sep] + b;
    if a == [] {
      assert s[1..] == b;
    } else {
      assert s[1..] == a[1..] + [sep] + b;
      SplitFirstPiece(a[1..], b, sep);
      assert [a[0]] + a[1..] == a;
    }
  }

  /** Splitting at any one separator splits the two sides independently. */
  lemma {:induction false} SplitAround(a: string, b: string, sep: char)
    ensures Split(a + [sep] + b, sep) == Split(a, sep) + Split(b, sep)
    decreases |a|
  {
    var s := a + [sep] + b;
    if a == [] {
      assert s[1..] == b;
      SplitStep(s, sep);
    } else {
      assert s[0] == a[0];
      assert s[1..] == a[1..] + [sep] + b;
      SplitStep(s, sep);
      SplitStep(a, sep);
      SplitAround(a[1..], b, sep);
      if a[0] != sep {
        GlueFirst(a[0], Split(a[1..], sep), Split(b, sep));
      }
    }
  }

  /** One step of the split: a leading separator starts a new piece, any other character joins the first one. */
  lemma SplitStep(s: string, sep: char)
    requires s != []
    ensures s[0] == sep ==> Split(s, sep) == [""] + Split(s[1..], sep)
    ensures s[0] != sep ==> Split(s, sep) == Glue(s[0], Split(s[1..], sep))
  {
  }

  /** Prepends a character to the first piece. */
  function Glue(c: char, parts: seq<string>): (r: seq<string>)
    requires parts != []
    ensures |r| == |parts| && r[0] == [c] + parts[0] && r[1..] == parts[1..]
  {
    [[c] + parts[0]] + parts[1..]
  }

  lemma GlueFirst(c: char, r: seq<string>, t: seq<string>)
    requires r != []
    ensures Glue(c, r + t) == Glue(c, r) + t
  {
    assert (r + t)[0] == r[0];
    assert (r + t)[1..] == r[1..] + t;
  }

  /** Two separators give three pieces. */
  lemma SplitThree(a: string, b: string, c: string, sep: char)
    requires sep !in a && sep !in b && sep !in c
    ensures Split(a + [sep] + b + [sep] + c, sep) == [a, b, c]
  {
    SplitNoSeparator(c, sep);
    SplitFirstPiece(b, c, sep);
    assert a + [sep] + b + [sep] + c == a + [sep] + (b + [sep] + c);
    SplitFirstPiece(a, b + [sep] + c, sep);
  }

  /** `s.split(sep)` undoes `sep.join(parts)` when no part holds the separator. */
  lemma {:induction false} SplitJoin(s: string, parts: seq<string>, sep: char)
    requires |parts| >= 1 && forall i :: 0 <= i < |parts| ==> sep !in parts[i]
    requires Join(parts, sep) == s
    ensures Split(s, sep) == parts
    decreases |parts|
  {
    if |parts| == 1 {
      SplitNoSeparator(parts[0], sep);
    } else {
      SplitJoin(Join(parts[1..], sep), parts[1..], sep);
      SplitFirstPiece(parts[0], Join(parts[1..], sep), sep);
    }
  }

  lemma PrefixCharAt(p: string, t: string, k: nat)
    requires p <= t && k < |p|
    ensures p[k] == t[k]
  {
  }

  /** An occurrence of `pat` in `a + [sep] + b` lies inside `a` or inside `b` when `pat` does
      not contain the separator. */
  lemma ContainsAroundSeparator(a: string, b: string, sep: char, pat: string)
    requires pat != [] && sep !in pat
    ensures Contains(a + [sep] + b, pat) <==> Contains(a, pat) || Contains(b, pat)
  {
    var s := a + [sep] + b;
    if Contains(s, pat) {
      var i :| 0 <= i <= |s| && pat <= s[i..];
      if i + |pat| <= |a| {
        assert a[i..][..|pat|] == s[i..][..|pat|];
      } else if i > |a| {
        assert b[i - |a| - 1..] == s[i..];
      } else {
        PrefixCharAt(pat, s[i..], |a| - i);
        assert false;
      }
    }
    if Contains(a, pat) {
      var i :| 0 <= i <= |a| && pat <= a[i..];
      assert s[i..][..|pat|] == a[i..][..|pat|];
    }
    if Contains(b, pat) {
      var i :| 0 <= i <= |b| && pat <= b[i..];
      assert s[|a| + 1 + i..] == b[i..];
    }
  }

  /** `pat in sep.join(parts)` exactly when some part contains `pat`, provided `pat` does not
      contain the separator: no occurrence straddles two parts. */
  lemma {:induction false} ContainsJoin(parts: seq<string>, sep: char, pat: string)
    requires pat != [] && sep !in pat
    ensures Contains(Join(parts, sep), pat) <==> exists i :: 0 <= i < |parts| && Contains(parts[i], pat)
    decreases |parts|
  {
    if |parts| == 0 {
      assert !(pat <= ""[0..]);
    } else if |parts| > 1 {
      ContainsJoin(parts[1..], sep, pat);
      ContainsAroundSeparator(parts[0], Join(parts[1..], sep), sep, pat);
      if exists i :: 0 <= i < |parts| && Contains(parts[i], pat) {
        var i :| 0 <= i < |parts| && Contains(parts[i], pat);
        if i > 0 {
          assert parts[1..][i - 1] == parts[i];
        }
      }
    }
  }

  /** Lower-casing the joined text lower-cases each part. */
  lemma {:induction false} LowerJoin(parts: seq<string>, sep: char)
    requires LowerChar(sep) == sep
    ensures Lower(Join(parts, sep)) == Join(seq(|parts|, i requires 0 <= i < |parts| => Lower(parts[i])), sep)
    decreases |parts|
  {
    var lowered := seq(|parts|, i requires 0 <= i < |parts| => Lower(parts[i]));
    if |parts| > 1 {
      LowerJoin(parts[1..], sep);
      assert lowered[1..] == seq(|parts[1..]|, i requires 0 <= i < |parts[1..]| => Lower(parts[1..][i]));
      LowerAppend(parts[0] + [sep], Join(parts[1..], sep));
      LowerAppend(parts[0], [sep]);
    }
  }

  /** `s.replace(pat, '')`: deletes the non-overlapping occurrences of `pat`, left to right. */
  function RemoveAll(s: string, pat: string): string
    requires pat != []
    decreases |s|
  {
    if |s| < |pat| then s
    else if pat <= s then RemoveAll(s[|pat|..], pat)
    else [s[0]] + RemoveAll(s[1..], pat)
  }

  lemma {:induction false} RemoveAllWithout(s: string, pat: string)
    requires pat != []
    requires !Contains(s, pat)
    ensures RemoveAll(s, pat) == s
    decreases |s|
  {
    if |s| >= |pat| {
      assert s[0..] == s;
      assert !(pat <= s);
      ContainsTail(s, pat);
      RemoveAllWithout(s[1..], pat);
    }
  }

  lemma ContainsTail(s: string, pat: string)
    requires s != [] && !Contains(s, pat)
    ensures !Contains(s[1..], pat)
  {
    forall i | 0 <= i <= |s[1..]|
      ensures !(pat <= s[1..][i..])
    {
      assert s[1..][i..] == s[i + 1..];
    }
  }

  /** No proper prefix of `pat` is also a suffix of it, so two occurrences never overlap. */
  predicate Unbordered(pat: string) {
    forall k :: 0 < k < |pat| ==> pat[|pat| - k..] != pat[..k]
  }

  /** A nonempty `base` without an occurrence of an unbordered `pat` cannot begin `base + pat` with `pat`. */
  lemma NoEarlyOccurrence(base: string, pat: string)
    requires pat != [] && Unbordered(pat)
    requires base != [] && !Contains(base, pat)
    ensures !(pat <= base + pat)
  {
    var s := base + pat;
    if |base| >= |pat| {
      assert base[0..] == base;
      assert !(pat <= base);
      assert s[..|pat|] == base[..|pat|];
    } else {
      var k := |pat| - |base|;
      assert pat[|pat| - k..] != pat[..k];
      assert s[..|pat|][|base|..] == pat[..k];
      assert pat[|base|..] == pat[|pat| - k..];
      assert s[..|pat|] != pat;
    }
  }

  /** Removing `pat` from `base + pat` gives back `base` when `base` has no occurrence. */
  lemma {:induction false} RemoveAllSuffix(base: string, pat: string)
    requires pat != [] && Unbordered(pat)
    requires !Contains(base, pat)
    ensures RemoveAll(base + pat, pat) == base
    decreases |base|
  {
    var s := base + pat;
    if base == [] {
      assert s == pat;
      assert RemoveAll(s, pat) == RemoveAll([], pat);
    } else {
      NoEarlyOccurrence(base, pat);
      ContainsTail(base, pat);
      assert s[1..] == base[1..] + pat;
      RemoveAllSuffix(base[1..], pat);
    }
  }

  function DigitChar(d: nat): char
    requires d < 10
  {
    ('0' as int + d) as char
  }

  /** `str(n)` for a non-negative int. */
  function NatToString(n: nat): (s: string)
    ensures s != [] && forall i :: 0 <= i < |s| ==> IsDigit(s[i])
    decreases n
  {
    if n < 10 then [DigitChar(n)] else NatToString(n / 10) + [DigitChar(n % 10)]
  }

  /** `str(i)` for an int. */
  function IntToString(i: int): string {
    if i < 0 then "-" + NatToString(-i) else NatToString(i)
  }

  /** The number a string of decimal digits denotes. */
  function DecimalValue(s: string): nat
    requires forall i :: 0 <= i < |s| ==> IsDigit(s[i])
    decreases |s|
  {
    if s == [] then 0
    else
      assert IsDigit(s[|s| - 1]);
      10 * DecimalValue(s[..|s| - 1]) + (s[|s| - 1] as int - '0' as int)
  }

  lemma {:induction false} NatToStringRoundTrip(n: nat)
    ensures DecimalValue(NatToString(n)) == n
    decreases n
  {
    var s := NatToString(n);
    if n >= 10 {
      NatToStringRoundTrip(n / 10);
      assert s[..|s| - 1] == NatToString(n / 10);
    }
  }
}

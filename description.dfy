/** The Midjourney "Description" parser and the prompt splitter of metadata.py:
    `parse_description` and `extract_clean_prompts`. */
module Description {
  import opened Text
  import opened Outcomes
  import opened Patterns

  // ---------------------------------------------------------------------------------
  // parse_description

  /** `--ar\s+(\d+:\d+)` */
  const ArPattern := FlagPattern("--ar", SomeSpaces, DigitsAround(':'))
  /** `--profile\s+(\w+)` */
  const ProfilePattern := FlagPattern("--profile", SomeSpaces, Run(Word))
  /** `--stylize\s+(\d+)` */
  const StylizePattern := FlagPattern("--stylize", SomeSpaces, Run(Digit))
  /** `--v\s+([\d.]+)` */
  const VersionPattern := FlagPattern("--v", SomeSpaces, Run(DigitOrDot))
  /** `Job ID:\s*([a-f0-9-]+)` */
  const JobIdPattern := FlagPattern("Job ID:", AnySpaces, Run(HexOrDash))

  lemma PatternsWellFormed()
    ensures WellFormed(ArPattern) && WellFormed(ProfilePattern) && WellFormed(StylizePattern)
    ensures WellFormed(VersionPattern) && WellFormed(JobIdPattern)
  {
  }

  /** The keys `parse_description` can store; `Key` gives the dictionary key as a string. */
  datatype Field = Prompt | AspectRatio | Profile | Stylize | Version | JobId {
    function Key(): string {
      match this
      case Prompt => "prompt"
      case AspectRatio => "aspect_ratio"
      case Profile => "profile"
      case Stylize => "stylize"
      case Version => "version"
      case JobId => "job_id"
    }

    /** The pattern searched for to fill this key; None for the prompt. */
    function Pattern(): Option<FlagPattern> {
      match this
      case Prompt => None
      case AspectRatio => Some(ArPattern)
      case Profile => Some(ProfilePattern)
      case Stylize => Some(StylizePattern)
      case Version => Some(VersionPattern)
      case JobId => Some(JobIdPattern)
    }

    /** The position of the key's insertion in `parse_description`. */
    function Rank(): nat {
      match this
      case Prompt => 0
      case AspectRatio => 1
      case Profile => 2
      case Stylize => 3
      case Version => 4
      case JobId => 5
    }
  }

  /** The six keys are six different strings. */
  lemma KeysDistinct(f: Field, g: Field)
    requires f != g
    ensures f.Key() != g.Key()
  {
    var a, b := f.Key(), g.Key();
    assert a[0] != b[0] || (|a| > 3 && |b| > 3 && a[3] != b[3]);
  }

  /** The prompt: group 1 of `(.*?)(?=\s+--)` matched at the start, stripped. */
  function PromptOf(d: string): Option<string> {
    match PromptEnd(d)
    case None => None
    case Some(k) => Some(Strip(d[..k]))
  }

  /** The six values `parse_description` looks for, each None when it is not found. */
  datatype Findings = Findings(
    prompt: Option<string>, aspectRatio: Option<string>, profile: Option<string>,
    stylize: Option<string>, version: Option<string>, jobId: Option<string>)
  {
    function Get(f: Field): Option<string> {
      match f
      case Prompt => prompt
      case AspectRatio => aspectRatio
      case Profile => profile
      case Stylize => stylize
      case Version => version
      case JobId => jobId
    }
  }

  /** What `parse_description` finds in `d`: each value is searched for independently of
      the others. */
  function FindingsOf(d: string): Findings {
    Findings(PromptOf(d), Search(d, ArPattern), Search(d, ProfilePattern),
             Search(d, StylizePattern), Search(d, VersionPattern), Search(d, JobIdPattern))
  }

  /** The keys in the order `parse_description` stores them. */
  const StoreOrder: seq<Field> := [Prompt, AspectRatio, Profile, Stylize, Version, JobId]

  lemma StoreOrderRank(f: Field)
    ensures f.Rank() < |StoreOrder| && StoreOrder[f.Rank()] == f
  {
  }

  /** The dictionary after the first `n` steps of `parse_description`: each step stores its
      key's finding, if there is one. */
  function Stored(v: Findings, n: nat): map<Field, string>
    requires n <= |StoreOrder|
  {
    if n == 0 then map[]
    else
      var f := StoreOrder[n - 1];
      var m := Stored(v, n - 1);
      if v.Get(f).Some? then m[f := v.Get(f).value] else m
  }

  /** With all six values found, the dictionary holds all six keys. */
  lemma StoredAllFound(v: Findings)
    requires v.prompt.Some? && v.aspectRatio.Some? && v.profile.Some?
    requires v.stylize.Some? && v.version.Some? && v.jobId.Some?
    ensures Stored(v, |StoreOrder|) ==
              map[Prompt := v.prompt.value, AspectRatio := v.aspectRatio.value, Profile := v.profile.value,
                  Stylize := v.stylize.value, Version := v.version.value, JobId := v.jobId.value]
  {
    StoredHoldsFindings(v, |StoreOrder|);
    forall f: Field ensures f.Rank() < |StoreOrder| {
      StoreOrderRank(f);
    }
  }

  /** The dictionary `parse_description(d)` returns. */
  function DescriptionFields(d: string): map<Field, string> {
    Stored(FindingsOf(d), |StoreOrder|)
  }

  /** No step overwrites another: after `n` steps the dictionary holds exactly the findings
      of the first `n` keys, each under its own key. */
  lemma {:induction false} StoredHoldsFindings(v: Findings, n: nat)
    requires n <= |StoreOrder|
    ensures forall f :: f in Stored(v, n) <==> f.Rank() < n && v.Get(f).Some?
    ensures forall f :: f in Stored(v, n) ==> Stored(v, n)[f] == v.Get(f).value
  {
    if n > 0 {
      StoredHoldsFindings(v, n - 1);
      forall f: Field
        ensures f in Stored(v, n) <==> f.Rank() < n && v.Get(f).Some?
        ensures f in Stored(v, n) ==> Stored(v, n)[f] == v.Get(f).value
      {
        StoreOrderRank(f);
      }
    }
  }

  /** The dictionary holds exactly what was found, each value under its own key. */
  lemma FieldsHoldFindings(d: string, f: Field)
    ensures f in DescriptionFields(d) <==> FindingsOf(d).Get(f).Some?
    ensures f in DescriptionFields(d) ==> DescriptionFields(d)[f] == FindingsOf(d).Get(f).value
  {
    StoredHoldsFindings(FindingsOf(d), |StoreOrder|);
    StoreOrderRank(f);
  }

  /** The insertions of `parse_description`, `if match: metadata[key] = group` for the six
      keys in turn, applied to what the searches found. */
  method StoreFindings(v: Findings) returns (fields: map<Field, string>)
    ensures fields == Stored(v, |StoreOrder|)
  {
    fields := map[];
    assert fields == Stored(v, 0);
    if v.prompt.Some? {
      fields := fields[Prompt := v.prompt.value];
    }
    assert fields == Stored(v, 1);
    if v.aspectRatio.Some? {
      fields := fields[AspectRatio := v.aspectRatio.value];
    }
    assert fields == Stored(v, 2);
    if v.profile.Some? {
      fields := fields[Profile := v.profile.value];
    }
    assert fields == Stored(v, 3);
    if v.stylize.Some? {
      fields := fields[Stylize := v.stylize.value];
    }
    assert fields == Stored(v, 4);
    if v.version.Some? {
      fields := fields[Version := v.version.value];
    }
    assert fields == Stored(v, 5);
    if v.jobId.Some? {
      fields := fields[JobId := v.jobId.value];
    }
  }

  /** `parse_description`: searches for the prompt and the five flags, then stores each value
      found under its key. */
  method ParseDescription(d: string) returns (fields: map<Field, string>)
    ensures fields == DescriptionFields(d)
  {
    PatternsWellFormed();
    var promptMatch := PromptEnd(d);
    var prompt := if promptMatch.Some? then Some(Strip(d[..promptMatch.value])) else None;
    var found := Findings(prompt, Search(d, ArPattern), Search(d, ProfilePattern),
                          Search(d, StylizePattern), Search(d, VersionPattern), Search(d, JobIdPattern));
    fields := StoreFindings(found);
  }

  /** The value under a key other than the prompt is the result of searching for its pattern. */
  lemma FlagFindingIsSearch(d: string, f: Field)
    requires f != Prompt
    ensures WellFormed(f.Pattern().value)
    ensures f in DescriptionFields(d) <==> Search(d, f.Pattern().value).Some?
    ensures f in DescriptionFields(d) ==> DescriptionFields(d)[f] == Search(d, f.Pattern().value).value
  {
    PatternsWellFormed();
    FieldsHoldFindings(d, f);
  }

  /** Every key other than the prompt maps to a non-empty string. */
  lemma FlagValuesNonEmpty(d: string, f: Field)
    requires f in DescriptionFields(d) && f != Prompt
    ensures DescriptionFields(d)[f] != []
  {
    var p := f.Pattern().value;
    FlagFindingIsSearch(d, f);
    SearchSpec(d, p);
    TokenNonEmpty(Search(d, p).value, p.token);
  }

  /** The prompt is present exactly when, before any newline, some whitespace run is followed
      by "--"; it is then the stripped text before the first such run. */
  lemma PromptField(d: string)
    ensures Prompt in DescriptionFields(d) <==>
              exists k :: 0 <= k <= |d| && '\n' !in d[..k] && LookaheadAt(d, k)
    ensures Prompt in DescriptionFields(d) ==>
              exists k :: 0 <= k <= |d| && '\n' !in d[..k] && LookaheadAt(d, k)
                          && (forall j :: 0 <= j < k ==> !LookaheadAt(d, j))
                          && DescriptionFields(d)[Prompt] == Strip(d[..k])
  {
    PromptEndSpec(d);
    FieldsHoldFindings(d, Prompt);
    match PromptEnd(d)
    case None =>
    case Some(k) =>
      assert DescriptionFields(d)[Prompt] == Strip(d[..k]);
  }

  /** Each other key is present exactly when its regular expression matches somewhere, and
      holds the value captured at the leftmost match, a member of the token's language. */
  lemma FlagField(d: string, f: Field)
    requires f != Prompt
    ensures var p := f.Pattern().value;
            f in DescriptionFields(d) <==> exists i :: 0 <= i <= |d| && RegexMatchesAt(d, i, p)
    ensures var p := f.Pattern().value;
            f in DescriptionFields(d) ==>
              && InTokenLanguage(DescriptionFields(d)[f], p.token)
              && exists i :: 0 <= i <= |d| && CapturesAt(d, i, p, DescriptionFields(d)[f])
                             && forall j :: 0 <= j < i ==> !RegexMatchesAt(d, j, p)
  {
    FlagFindingIsSearch(d, f);
    SearchSpec(d, f.Pattern().value);
  }

  /** The characters of the values: aspect_ratio is digits ':' digits, stylize is digits,
      version is digits and dots, job_id is lower-case hex digits and '-', profile is word
      characters. */
  lemma FieldCharacters(d: string, f: Field)
    requires f in DescriptionFields(d) && f != Prompt
    ensures ValueCharacters(DescriptionFields(d)[f], f)
  {
    FlagField(d, f);
    TokenCharacters(DescriptionFields(d)[f], f);
  }

  /** The characters a value found for `f` is made of. */
  predicate ValueCharacters(v: string, f: Field) {
    match f
    case AspectRatio =>
      exists c :: 0 < c < |v| - 1 && v[c] == ':' && forall j :: 0 <= j < |v| && j != c ==> IsDigit(v[j])
    case Stylize => forall j :: 0 <= j < |v| ==> IsDigit(v[j])
    case Version => forall j :: 0 <= j < |v| ==> IsDigit(v[j]) || v[j] == '.'
    case JobId => forall j :: 0 <= j < |v| ==> IsDigit(v[j]) || 'a' <= v[j] <= 'f' || v[j] == '-'
    case Profile => forall j :: 0 <= j < |v| ==> IsWordChar(v[j])
    case Prompt => true
  }

  lemma TokenCharacters(v: string, f: Field)
    requires f != Prompt && InTokenLanguage(v, f.Pattern().value.token)
    ensures ValueCharacters(v, f)
  {
    if f == AspectRatio {
      var c :| DigitsAroundAt(v, ':', c);
      assert forall j :: 0 <= j < |v| && j != c ==> IsDigit(v[j]);
    }
  }

  // ---------------------------------------------------------------------------------
  // extract_clean_prompts

  /** The model names for which prompts are split on commas. */
  predicate SplitsOnCommas(aiModel: string) {
    aiModel == "EMPROPS" || aiModel == "STABLE_DIFFUSION"
  }

  /** `[part.strip() for part in parts if part.strip()]` */
  function StrippedNonBlank(parts: seq<string>): seq<string>
    decreases |parts|
  {
    if parts == [] then []
    else
      var rest := StrippedNonBlank(parts[1..]);
      if Strip(parts[0]) != [] then [Strip(parts[0])] + rest else rest
  }

  /** The comma branch of `extract_clean_prompts`. */
  function CommaPrompts(d: string): seq<string> {
    StrippedNonBlank(Split(d, ','))
  }

  /** Every kept prompt is non-empty and stripped, a value is kept exactly when some part
      strips to it, and nothing is added. */
  lemma {:induction false} StrippedNonBlankSpec(parts: seq<string>)
    ensures forall x :: x in StrippedNonBlank(parts) ==> x != [] && IsStripped(x)
    ensures forall x :: x in StrippedNonBlank(parts) <==> x != [] && exists i :: 0 <= i < |parts| && Strip(parts[i]) == x
    ensures |StrippedNonBlank(parts)| <= |parts|
    decreases |parts|
  {
    if parts != [] {
      StrippedNonBlankSpec(parts[1..]);
      forall x | x != [] && (exists i :: 0 <= i < |parts| && Strip(parts[i]) == x)
        ensures x in StrippedNonBlank(parts)
      {
        var i :| 0 <= i < |parts| && Strip(parts[i]) == x;
        if i > 0 {
          assert Strip(parts[1..][i - 1]) == x;
        }
      }
      forall x | x in StrippedNonBlank(parts[1..])
        ensures exists i :: 0 <= i < |parts| && Strip(parts[i]) == x
      {
        var i :| 0 <= i < |parts[1..]| && Strip(parts[1..][i]) == x;
        assert Strip(parts[i + 1]) == x;
      }
    }
  }

  /** Removing the blank parts keeps the order: the kept prompts, with `,` between them, are the
      stripped parts read left to right. */
  lemma {:induction false} StrippedNonBlankOrder(parts: seq<string>)
    requires forall i :: 0 <= i < |parts| ==> Strip(parts[i]) != []
    ensures StrippedNonBlank(parts) == seq(|parts|, i requires 0 <= i < |parts| => Strip(parts[i]))
    decreases |parts|
  {
    if parts != [] {
      StrippedNonBlankOrder(parts[1..]);
    }
  }

  /** The comprehension works part by part: a part contributes its stripped text, or nothing
      when it is blank, and the contributions follow the parts' order. The two clauses fix the
      result for every list of parts, repeated prompts and blank parts in between included. */
  lemma {:induction false} StrippedNonBlankAppend(a: seq<string>, b: seq<string>)
    ensures StrippedNonBlank(a + b) == StrippedNonBlank(a) + StrippedNonBlank(b)
    ensures |a| == 1 ==> StrippedNonBlank(a) == Kept(a[0])
    decreases |a|
  {
    if a == [] {
      assert a + b == b;
    } else {
      assert (a + b)[1..] == a[1..] + b;
      StrippedNonBlankStep(a + b);
      StrippedNonBlankStep(a);
      StrippedNonBlankAppend(a[1..], b);
      if |a| == 1 {
        assert a[1..] == [];
      }
    }
  }

  /** What one part contributes: its stripped text, or nothing when that is empty. */
  function Kept(part: string): (r: seq<string>)
    ensures |r| <= 1 && (r != [] <==> Strip(part) != [])
  {
    if Strip(part) != [] then [Strip(part)] else []
  }

  lemma StrippedNonBlankStep(parts: seq<string>)
    requires parts != []
    ensures StrippedNonBlank(parts) == Kept(parts[0]) + StrippedNonBlank(parts[1..])
  {
  }

  /** The comma branch cuts at every comma and handles the two sides separately; text without
      a comma is one prompt, stripped, or none when it is blank. */
  lemma CommaPromptsAppend(a: string, b: string)
    ensures CommaPrompts(a + [','] + b) == CommaPrompts(a) + CommaPrompts(b)
    ensures ',' !in a ==> CommaPrompts(a) == Kept(a)
  {
    SplitAround(a, b, ',');
    StrippedNonBlankAppend(Split(a, ','), Split(b, ','));
    if ',' !in a {
      SplitNoSeparator(a, ',');
      StrippedNonBlankAppend([a], []);
    }
  }

  lemma CommaExampleSplit(d: string)
    requires d == "cat, space, nebula"
    ensures Split(d, ',') == ["cat", " space", " nebula"]
  {
    assert d == "cat" + [','] + " space" + [','] + " nebula";
    SplitThree("cat", " space", " nebula", ',');
  }

  lemma CommaExampleStrips(parts: seq<string>)
    requires parts == ["cat", " space", " nebula"]
    ensures Strip(parts[0]) == "cat" && Strip(parts[1]) == "space" && Strip(parts[2]) == "nebula"
  {
    assert parts[1] == [' '] + "space";
    StripLeadingBlank("space");
    assert parts[2] == [' '] + "nebula";
    StripLeadingBlank("nebula");
  }

  /** Three parts none of which strips to blank are all kept, stripped. */
  lemma StrippedNonBlankThree(parts: seq<string>)
    requires |parts| == 3 && Strip(parts[0]) != [] && Strip(parts[1]) != [] && Strip(parts[2]) != []
    ensures StrippedNonBlank(parts) == [Strip(parts[0]), Strip(parts[1]), Strip(parts[2])]
  {
    StrippedNonBlankOrder(parts);
  }

  /** `"cat, space, nebula"` split on commas gives the three words. */
  lemma CommaExample(d: string)
    requires d == "cat, space, nebula"
    ensures CommaPrompts(d) == ["cat", "space", "nebula"]
  {
    var parts := Split(d, ',');
    CommaExampleSplit(d);
    CommaExampleStrips(parts);
    StrippedNonBlankThree(parts);
  }

  /** `not re.search(r'::\s*-', weight)`: the pattern matches nowhere in the separator that
      follows a segment. */
  predicate PositiveWeight(sep: string) {
    SearchFrom(sep, 0, NegativeWeightPattern).None?
  }

  /** `PositiveWeight` is exactly a failed `re.search`. */
  lemma PositiveWeightIsFailedSearch(sep: string)
    ensures WellFormed(NegativeWeightPattern)
    ensures PositiveWeight(sep) <==> Search(sep, NegativeWeightPattern).None?
    ensures PositiveWeight(sep) <==> forall i :: 0 <= i <= |sep| ==> !RegexMatchesAt(sep, i, NegativeWeightPattern)
  {
    SearchSpec(sep, NegativeWeightPattern);
    if SearchFrom(sep, 0, NegativeWeightPattern).Some? {
      SearchFromFirst(sep, 0, NegativeWeightPattern);
      ScannerMatchCaptures(sep, SearchFrom(sep, 0, NegativeWeightPattern).value, NegativeWeightPattern);
    }
  }

  /** `not re.search(r'::\s*-', weight) and prompt`: the loop keeps a segment that is not
      blank when the separator after it has no negative weight. */
  predicate Keeps(segment: string, sep: string) {
    PositiveWeight(sep) && Strip(segment) != []
  }

  /** The prompts the loop collects from the first `m` (segment, separator) pairs. */
  function PairPrompts(parts: seq<string>, m: nat): seq<string>
    requires 2 * m <= |parts|
  {
    if m == 0 then []
    else
      var rest := PairPrompts(parts, m - 1);
      if Keeps(parts[2 * m - 2], parts[2 * m - 1]) then rest + [Strip(parts[2 * m - 2])] else rest
  }

  /** One more pair adds its stripped segment when the loop keeps it. */
  lemma PairPromptsStep(parts: seq<string>, m: nat)
    requires 2 * m + 2 <= |parts|
    ensures PairPrompts(parts, m + 1) ==
      if Keeps(parts[2 * m], parts[2 * m + 1]) then PairPrompts(parts, m) + [Strip(parts[2 * m])]
      else PairPrompts(parts, m)
  {
  }

  /** The default branch after the prompt is found: the pairs, then the trailing segment. */
  function WeightedPrompts(parts: seq<string>): seq<string>
    requires |parts| % 2 == 1
  {
    var last := parts[|parts| - 1];
    PairPrompts(parts, |parts| / 2) + (if Strip(last) != [] then [Strip(last)] else [])
  }

  /** What `extract_clean_prompts(description, ai_model)` returns. */
  function CleanPrompts(d: string, aiModel: string): seq<string> {
    if SplitsOnCommas(aiModel) then CommaPrompts(d)
    else
      match PromptEnd(d)
      case None => []
      case Some(k) => WeightedPrompts(WeightSplit(Strip(d[..k])))
  }

  /** The loop of `extract_clean_prompts`: `for i in range(0, len(parts)-1, 2)` over the
      (segment, separator) pairs of the weight split. */
  method CollectPairs(parts: seq<string>) returns (prompts: seq<string>)
    requires |parts| % 2 == 1
    ensures prompts == PairPrompts(parts, |parts| / 2)
  {
    ghost var pairs := |parts| / 2;
    assert |parts| == 2 * pairs + 1;
    prompts := [];
    var i := 0;
    ghost var m := 0;
    while i < |parts| - 1
      invariant i == 2 * m && m <= pairs
      invariant prompts == PairPrompts(parts, m)
      decreases pairs - m
    {
      prompts := CollectPair(parts, i, prompts, m);
      i, m := i + 2, m + 1;
    }
    assert m == pairs;
  }

  /** One iteration of the loop: the segment at `i` is appended, stripped, when it is not
      blank and the separator after it carries no negative weight. */
  method CollectPair(parts: seq<string>, i: nat, prompts: seq<string>, ghost m: nat) returns (next: seq<string>)
    requires i == 2 * m && i + 1 < |parts|
    requires prompts == PairPrompts(parts, m)
    ensures next == PairPrompts(parts, m + 1)
  {
    PairPromptsStep(parts, m);
    next := prompts;
    var prompt := Strip(parts[i]);
    if i + 1 < |parts| {
      var weight := parts[i + 1];
      if PositiveWeight(weight) && prompt != [] {
        next := next + [prompt];
      }
    }
  }

  /** `extract_clean_prompts`: the comma branch, or the weight split of the prompt prefix,
      whose pairs are collected by the loop before the trailing segment is added. */
  method ExtractCleanPrompts(d: string, aiModel: string) returns (prompts: seq<string>)
    ensures prompts == CleanPrompts(d, aiModel)
  {
    if SplitsOnCommas(aiModel) {
      return CommaPrompts(d);
    }
    var fullPrompt := PromptEnd(d);
    if fullPrompt.None? {
      return [];
    }
    var parts := WeightSplit(Strip(d[..fullPrompt.value]));
    prompts := CollectWeighted(parts);
  }

  /** The weight-split pieces of the prompt: the pairs collected by the loop, then the
      trailing segment when it is not blank. */
  method CollectWeighted(parts: seq<string>) returns (prompts: seq<string>)
    requires |parts| % 2 == 1
    ensures prompts == WeightedPrompts(parts)
  {
    prompts := CollectPairs(parts);
    var last := Strip(parts[|parts| - 1]);
    if |parts| % 2 == 1 && last != [] {
      prompts := prompts + [last];
    }
  }

  /** Every prompt returned is non-empty and has no surrounding whitespace. */
  lemma CleanPromptsStripped(d: string, aiModel: string)
    ensures forall x :: x in CleanPrompts(d, aiModel) ==> x != [] && IsStripped(x)
  {
    if SplitsOnCommas(aiModel) {
      StrippedNonBlankSpec(Split(d, ','));
    } else if PromptEnd(d).Some? {
      var parts := WeightSplit(Strip(d[..PromptEnd(d).value]));
      PairPromptsSpec(parts, |parts| / 2);
    }
  }

  /** The segment at `i` is kept as `x`. */
  predicate KeptAt(parts: seq<string>, i: nat, x: string)
    requires i + 1 < |parts|
  {
    Keeps(parts[i], parts[i + 1]) && x == Strip(parts[i])
  }

  /** The segment of one of the first `m` pairs is kept as `x`. */
  ghost predicate KeptBefore(parts: seq<string>, m: nat, x: string)
    requires 2 * m <= |parts|
  {
    exists k: nat :: k < m && KeptAt(parts, 2 * k, x)
  }

  /** The first `m` pairs are the first `m - 1` pairs and pair `m - 1`. */
  lemma KeptBeforeStep(parts: seq<string>, m: nat, x: string)
    requires 0 < m && 2 * m <= |parts|
    ensures KeptBefore(parts, m, x) <==> KeptBefore(parts, m - 1, x) || KeptAt(parts, 2 * (m - 1), x)
  {
    if KeptBefore(parts, m, x) {
      var k: nat :| k < m && KeptAt(parts, 2 * k, x);
      if k < m - 1 {
        assert KeptBefore(parts, m - 1, x);
      }
    }
    if KeptAt(parts, 2 * (m - 1), x) {
      assert KeptBefore(parts, m, x) by {
        var k: nat := m - 1;
        assert KeptAt(parts, 2 * k, x);
      }
    }
  }

  /** A segment enters the pairs' prompts exactly when, at an even position, it is not blank
      and the separator after it carries no negative weight; each such prompt is stripped. */
  lemma {:induction false} PairPromptsSpec(parts: seq<string>, m: nat)
    requires 2 * m <= |parts|
    ensures forall x :: x in PairPrompts(parts, m) <==> KeptBefore(parts, m, x)
    ensures forall x :: x in PairPrompts(parts, m) ==> x != [] && IsStripped(x)
  {
    if m > 0 {
      PairPromptsSpec(parts, m - 1);
      forall x
        ensures x in PairPrompts(parts, m) <==> KeptBefore(parts, m, x)
      {
        KeptBeforeStep(parts, m, x);
      }
    }
  }

  /** Without a whitespace run followed by "--" on the first line there is no prompt, and
      the Midjourney branch returns nothing. */
  lemma NoParametersNoPrompts(d: string, aiModel: string)
    requires !SplitsOnCommas(aiModel)
    requires forall j :: 0 <= j <= |d| && '\n' !in d[..j] ==> !LookaheadAt(d, j)
    ensures CleanPrompts(d, aiModel) == []
  {
    PromptEndSpec(d);
  }

  /** A prompt without any `::` weight is returned whole, stripped, when it is not blank. */
  lemma UnweightedPrompt(d: string, aiModel: string, k: nat)
    requires !SplitsOnCommas(aiModel) && PromptEnd(d) == Some(k)
    requires forall p :: 0 <= p < |Strip(d[..k])| ==> !("::" <= Strip(d[..k])[p..])
    ensures CleanPrompts(d, aiModel) == if Strip(d[..k]) != [] then [Strip(d[..k])] else []
  {
    var full := Strip(d[..k]);
    WeightSplitUnweighted(full);
    assert WeightSplit(full) == [full];
  }

  /** In the Midjourney branch a prompt is returned exactly when it is the kept segment of a
      (segment, separator) pair or the non-blank trailing segment of the weight split. */
  lemma CleanPromptsMembership(d: string, aiModel: string, k: nat, x: string)
    requires !SplitsOnCommas(aiModel) && PromptEnd(d) == Some(k)
    ensures var parts := WeightSplit(Strip(d[..k]));
            x in CleanPrompts(d, aiModel) <==>
              KeptBefore(parts, |parts| / 2, x) || (x != [] && x == Strip(parts[|parts| - 1]))
  {
    var parts := WeightSplit(Strip(d[..k]));
    PairPromptsSpec(parts, |parts| / 2);
  }
}

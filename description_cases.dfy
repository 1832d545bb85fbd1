/** Worked examples of `parse_description` and `extract_clean_prompts` on concrete
    descriptions. */
module DescriptionCases {
  import opened Outcomes
  import opened Text
  import opened Patterns
  import opened Description

  // ---------------------------------------------------------------------------------
  // extract_clean_prompts on "red sky::2 blue sea::-1 --ar 1:1"

  /** The prompt of the red-sky description ends before " --ar". */
  lemma RedSkyEnd(d: string)
    requires d == "red sky::2 blue sea::-1 --ar 1:1"
    ensures PromptEnd(d) == Some(23) && d[..23] == "red sky::2 blue sea::-1"
  {
    var a, b := "red sky::2 blue sea::-1", " --ar 1:1";
    assert d == a + b;
    PromptEndAt(a, b);
  }

  /** `re.split` cuts "red sky" and its separator "::2 " off first. */
  lemma RedSkyFirstCut(a: string)
    requires a == "red sky::2 blue sea::-1"
    ensures WeightSplit(a) == ["red sky", "::2 "] + WeightSplit(a[11..])
  {
    RedSkyPieces(a);
    RedSkyFirstSeparator(a);
    WeightSplitCut(a, 7, 4);
  }

  lemma RedSkyPieces(a: string)
    requires a == "red sky::2 blue sea::-1"
    ensures a[..7] == "red sky" && a[7..11] == "::2 " && a[11..] == "blue sea::-1"
  {
    assert a == "red sky" + "::2 " + "blue sea::-1";
  }

  lemma RedSkyFirstSeparator(a: string)
    requires a == "red sky::2 blue sea::-1"
    ensures WeightSepLen(a, 7) == 4
  {
    RunLenExact(a, 9, SpaceOrDash, 0);
    RunLenExact(a, 9, DigitOrDot, 1);
    RunLenExact(a, 10, Space, 1);
  }

  /** The rest splits into "blue sea", its separator "::-1" and an empty tail. */
  lemma RedSkySecondCut(t: string)
    requires t == "blue sea::-1"
    ensures WeightSplit(t) == ["blue sea", "::-1", ""]
  {
    assert t[..8] == "blue sea" && t[8..12] == "::-1" && t[12..] == "";
    RunLenExact(t, 10, SpaceOrDash, 1);
    RunLenExact(t, 11, DigitOrDot, 1);
    RunLenExact(t, 12, Space, 0);
    WeightSplitCut(t, 8, 4);
    WeightSplitNoColon("");
  }

  /** The weight split of the red-sky prompt. */
  lemma RedSkySplit(a: string)
    requires a == "red sky::2 blue sea::-1"
    ensures WeightSplit(a) == ["red sky", "::2 ", "blue sea", "::-1", ""]
  {
    RedSkyFirstCut(a);
    RedSkySecondCut(a[11..]);
  }

  /** "::-1" is a negative weight. */
  lemma MinusOneNegative(sep: string)
    requires sep == "::-1"
    ensures !PositiveWeight(sep)
  {
    RunLenExact(sep, 2, Space, 0);
    assert MatchSpan(sep, 0, NegativeWeightPattern).Some?;
  }

  /** "::2 " is not a negative weight. */
  lemma TwoPositive(sep: string)
    requires sep == "::2 "
    ensures PositiveWeight(sep)
  {
    RunLenExact(sep, 2, Space, 0);
    assert MatchSpan(sep, 0, NegativeWeightPattern).None?;
    var p := NegativeWeightPattern;
    assert SearchFrom(sep, 4, p).None?;
    assert !FlagAt(sep, 3, "::");
    assert SearchFrom(sep, 3, p).None?;
    assert !FlagAt(sep, 2, "::");
    assert SearchFrom(sep, 2, p).None?;
    assert !FlagAt(sep, 1, "::");
    assert SearchFrom(sep, 1, p).None?;
  }

  /** Of the two segments only "red sky" has a positive weight; the empty tail is dropped. */
  lemma RedSkyPrompts(parts: seq<string>)
    requires parts == ["red sky", "::2 ", "blue sea", "::-1", ""]
    ensures WeightedPrompts(parts) == ["red sky"]
  {
    TwoPositive(parts[1]);
    MinusOneNegative(parts[3]);
    assert Strip(parts[0]) == "red sky";
    assert Strip(parts[4]) == [];
    PairPromptsStep(parts, 0);
    PairPromptsStep(parts, 1);
  }

  /** `extract_clean_prompts("red sky::2 blue sea::-1 --ar 1:1", "MIDJOURNEY")` gives
      ["red sky"]. */
  lemma RedSkyExample(d: string)
    requires d == "red sky::2 blue sea::-1 --ar 1:1"
    ensures CleanPrompts(d, "MIDJOURNEY") == ["red sky"]
  {
    RedSkyEnd(d);
    var a := d[..23];
    assert Strip(a) == a;
    RedSkySplit(a);
    RedSkyPrompts(WeightSplit(a));
  }

  // ---------------------------------------------------------------------------------
  // parse_description on "a cat in space --ar 16:9 --profile fast --stylize 250 --v 6.0 Job ID: ab12-34cd"

  /** A run-class value followed by text that cannot continue it is one whole token. */
  lemma RunTokenValue(v: string, rest: string, k: CharClass)
    requires forall i :: 0 <= i < |v| ==> InClass(v[i], k)
    requires rest == [] || !InClass(rest[0], k)
    ensures TokenLen(v + rest, 0, Run(k)) == |v|
  {
    var s := v + rest;
    assert forall i :: 0 <= i < |v| ==> s[i] == v[i];
    if rest != [] {
      assert s[|v|] == rest[0];
    }
    RunLenExact(s, 0, k, |v|);
  }

  /** "16:9" is a whole `\d+:\d+` token. */
  lemma RatioToken(rest: string)
    requires rest == [] || rest[0] == ' '
    ensures TokenLen("16:9" + rest, 0, DigitsAround(':')) == 4
  {
    var s := "16:9" + rest;
    assert s[0] == '1' && s[1] == '6' && s[2] == ':' && s[3] == '9';
    RunLenExact(s, 0, Digit, 2);
    if rest != [] {
      assert s[4] == rest[0];
    }
    RunLenExact(s, 3, Digit, 1);
  }

  /** Each flag of the example, cut into the flag and its value. */
  lemma ArSegment(g: string)
    requires g == " --ar 16:9"
    ensures g == " " + ("--" + "ar" + " " + "16:9") && g == " " + ("--ar" + " " + "16:9")
  {
  }

  lemma ProfileSegment(g: string)
    requires g == " --profile fast"
    ensures g == " " + ("--" + "profile" + " " + "fast") && g == " " + ("--profile" + " " + "fast")
  {
  }

  lemma StylizeSegment(g: string)
    requires g == " --stylize 250"
    ensures g == " " + ("--" + "stylize" + " " + "250") && g == " " + ("--stylize" + " " + "250")
  {
  }

  lemma VersionSegment(g: string)
    requires g == " --v 6.0"
    ensures g == " " + ("--" + "v" + " " + "6.0") && g == " " + ("--v" + " " + "6.0")
  {
  }

  lemma JobSegment(g: string)
    requires g == " Job ID: ab12-34cd"
    ensures g == " " + ("Job ID:" + " " + "ab12-34cd")
  {
  }

  /** A flag of another name is passed over by the searches for `--` flags. */
  lemma PastAr(g: string, rest: string, p: FlagPattern)
    requires g == " --ar 16:9"
    requires WellFormed(p) && |p.flag| >= 3 && p.flag[..2] == "--" && p.flag[2] != 'a'
    ensures Search(g + rest, p) == Search(rest, p)
  {
    ArSegment(g);
    SearchPastSpaceFlag("ar", "16:9", rest, p);
  }

  lemma PastProfile(g: string, rest: string, p: FlagPattern)
    requires g == " --profile fast"
    requires WellFormed(p) && |p.flag| >= 3 && p.flag[..2] == "--" && p.flag[2] != 'p'
    ensures Search(g + rest, p) == Search(rest, p)
  {
    ProfileSegment(g);
    SearchPastSpaceFlag("profile", "fast", rest, p);
  }

  lemma PastStylize(g: string, rest: string, p: FlagPattern)
    requires g == " --stylize 250"
    requires WellFormed(p) && |p.flag| >= 3 && p.flag[..2] == "--" && p.flag[2] != 's'
    ensures Search(g + rest, p) == Search(rest, p)
  {
    StylizeSegment(g);
    SearchPastSpaceFlag("stylize", "250", rest, p);
  }

  /** Each flag of the example captures its value. */
  lemma MatchAr(g: string, rest: string)
    requires g == " --ar 16:9" && rest != [] && rest[0] == ' '
    ensures Search(g + rest, ArPattern) == Some("16:9")
  {
    PatternsWellFormed();
    ArSegment(g);
    RatioToken(rest);
    SearchSpaceFlagFirst("--ar", "16:9", rest, ArPattern);
  }

  lemma MatchProfile(g: string, rest: string)
    requires g == " --profile fast" && rest != [] && rest[0] == ' '
    ensures Search(g + rest, ProfilePattern) == Some("fast")
  {
    PatternsWellFormed();
    ProfileSegment(g);
    RunTokenValue("fast", rest, Word);
    SearchSpaceFlagFirst("--profile", "fast", rest, ProfilePattern);
  }

  lemma MatchStylize(g: string, rest: string)
    requires g == " --stylize 250" && rest != [] && rest[0] == ' '
    ensures Search(g + rest, StylizePattern) == Some("250")
  {
    PatternsWellFormed();
    StylizeSegment(g);
    RunTokenValue("250", rest, Digit);
    SearchSpaceFlagFirst("--stylize", "250", rest, StylizePattern);
  }

  lemma MatchVersion(g: string, rest: string)
    requires g == " --v 6.0" && rest != [] && rest[0] == ' '
    ensures Search(g + rest, VersionPattern) == Some("6.0")
  {
    PatternsWellFormed();
    VersionSegment(g);
    RunTokenValue("6.0", rest, DigitOrDot);
    SearchSpaceFlagFirst("--v", "6.0", rest, VersionPattern);
  }

  lemma MatchJob(g: string)
    requires g == " Job ID: ab12-34cd"
    ensures Search(g, JobIdPattern) == Some("ab12-34cd")
  {
    PatternsWellFormed();
    JobSegment(g);
    RunTokenValue("ab12-34cd", "", HexOrDash);
    assert "ab12-34cd" + "" == "ab12-34cd";
    assert g == " " + ("Job ID:" + " " + "ab12-34cd") + "";
    SearchSpaceFlagFirst("Job ID:", "ab12-34cd", "", JobIdPattern);
  }

  /** The example description, piece by piece. */
  predicate ExamplePieces(a: string, g1: string, g2: string, g3: string, g4: string, g5: string) {
    a == "a cat in space" && g1 == " --ar 16:9" && g2 == " --profile fast" && g3 == " --stylize 250"
    && g4 == " --v 6.0" && g5 == " Job ID: ab12-34cd"
  }

  /** Each search over the whole example finds its flag's value. */
  lemma ExampleAr(a: string, g1: string, g2: string, g3: string, g4: string, g5: string)
    requires ExamplePieces(a, g1, g2, g3, g4, g5)
    ensures Search(a + (g1 + (g2 + (g3 + (g4 + g5)))), ArPattern) == Some("16:9")
  {
    PatternsWellFormed();
    SearchPastPlain(a, g1 + (g2 + (g3 + (g4 + g5))), ArPattern);
    MatchAr(g1, g2 + (g3 + (g4 + g5)));
  }

  lemma ExampleProfile(a: string, g1: string, g2: string, g3: string, g4: string, g5: string)
    requires ExamplePieces(a, g1, g2, g3, g4, g5)
    ensures Search(a + (g1 + (g2 + (g3 + (g4 + g5)))), ProfilePattern) == Some("fast")
  {
    PatternsWellFormed();
    SearchPastPlain(a, g1 + (g2 + (g3 + (g4 + g5))), ProfilePattern);
    PastAr(g1, g2 + (g3 + (g4 + g5)), ProfilePattern);
    MatchProfile(g2, g3 + (g4 + g5));
  }

  lemma ExampleStylize(a: string, g1: string, g2: string, g3: string, g4: string, g5: string)
    requires ExamplePieces(a, g1, g2, g3, g4, g5)
    ensures Search(a + (g1 + (g2 + (g3 + (g4 + g5)))), StylizePattern) == Some("250")
  {
    PatternsWellFormed();
    SearchPastPlain(a, g1 + (g2 + (g3 + (g4 + g5))), StylizePattern);
    PastAr(g1, g2 + (g3 + (g4 + g5)), StylizePattern);
    PastProfile(g2, g3 + (g4 + g5), StylizePattern);
    MatchStylize(g3, g4 + g5);
  }

  lemma ExampleVersion(a: string, g1: string, g2: string, g3: string, g4: string, g5: string)
    requires ExamplePieces(a, g1, g2, g3, g4, g5)
    ensures Search(a + (g1 + (g2 + (g3 + (g4 + g5)))), VersionPattern) == Some("6.0")
  {
    PatternsWellFormed();
    SearchPastPlain(a, g1 + (g2 + (g3 + (g4 + g5))), VersionPattern);
    PastAr(g1, g2 + (g3 + (g4 + g5)), VersionPattern);
    PastProfile(g2, g3 + (g4 + g5), VersionPattern);
    PastStylize(g3, g4 + g5, VersionPattern);
    MatchVersion(g4, g5);
  }

  /** The flags have no 'J' in them, so the search for "Job ID:" passes over them. */
  lemma PastNoJob(g: string, rest: string)
    requires g == " --ar 16:9" || g == " --profile fast" || g == " --stylize 250" || g == " --v 6.0"
    ensures Search(g + rest, JobIdPattern) == Search(rest, JobIdPattern)
  {
    PatternsWellFormed();
    assert 'J' !in g;
    SearchPastPlain(g, rest, JobIdPattern);
  }

  lemma ExampleJob(a: string, g1: string, g2: string, g3: string, g4: string, g5: string)
    requires ExamplePieces(a, g1, g2, g3, g4, g5)
    ensures Search(a + (g1 + (g2 + (g3 + (g4 + g5)))), JobIdPattern) == Some("ab12-34cd")
  {
    PatternsWellFormed();
    SearchPastPlain(a, g1 + (g2 + (g3 + (g4 + g5))), JobIdPattern);
    PastNoJob(g1, g2 + (g3 + (g4 + g5)));
    PastNoJob(g2, g3 + (g4 + g5));
    PastNoJob(g3, g4 + g5);
    PastNoJob(g4, g5);
    MatchJob(g5);
  }

  /** The prompt is the text before the first " --". */
  lemma ExamplePrompt(a: string, g1: string, g2: string, g3: string, g4: string, g5: string)
    requires ExamplePieces(a, g1, g2, g3, g4, g5)
    ensures PromptOf(a + (g1 + (g2 + (g3 + (g4 + g5))))) == Some("a cat in space")
  {
    var b := g1 + (g2 + (g3 + (g4 + g5)));
    assert b[0] == ' ' && b[1] == '-' && b[2] == '-' by {
      assert b[0] == g1[0] && b[1] == g1[1] && b[2] == g1[2];
    }
    assert !IsSpace(a[|a| - 1]);
    PromptEndAt(a, b);
  }

  /** `parse_description("a cat in space --ar 16:9 --profile fast --stylize 250 --v 6.0 Job ID: ab12-34cd")`
      finds all six values. */
  lemma ParseExample(d: string)
    requires d == "a cat in space" + " --ar 16:9" + " --profile fast" + " --stylize 250" + " --v 6.0"
                  + " Job ID: ab12-34cd"
    ensures DescriptionFields(d) ==
              map[Prompt := "a cat in space", AspectRatio := "16:9", Profile := "fast",
                  Stylize := "250", Version := "6.0", JobId := "ab12-34cd"]
  {
    var a, g1, g2, g3, g4, g5 := "a cat in space", " --ar 16:9", " --profile fast", " --stylize 250",
                                 " --v 6.0", " Job ID: ab12-34cd";
    assert d == a + (g1 + (g2 + (g3 + (g4 + g5))));
    ExamplePrompt(a, g1, g2, g3, g4, g5);
    ExampleAr(a, g1, g2, g3, g4, g5);
    ExampleProfile(a, g1, g2, g3, g4, g5);
    ExampleStylize(a, g1, g2, g3, g4, g5);
    ExampleVersion(a, g1, g2, g3, g4, g5);
    ExampleJob(a, g1, g2, g3, g4, g5);
    StoredAllFound(FindingsOf(d));
  }
}

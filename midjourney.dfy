/** The Midjourney extractor: recognising a Midjourney image from its text chunks, and
    copying what `parse_description` finds in its Description into a fresh record. */
module Midjourney {
  import opened Outcomes
  import opened Text
  import opened Patterns
  import opened Images
  import opened Record
  import opened Description
  import opened Base

  // ---------------------------------------------------------------------------------
  // is_compatible

  /** The strings of `model_indicators`. */
  const VersionTags: seq<string> :=
    ["--v 1", "--v 2", "--v 3", "--v 4", "--v 5", "--v 6", "--niji", "--test", "--testp"]

  /** `--v\s*\d+\.\d+` */
  const DecimalVersionPattern := FlagPattern("--v", AnySpaces, DigitsAround('.'))
  /** `MJ_\w+` */
  const FilenamePattern := FlagPattern("MJ_", NoGap, Run(Word))
  /** `--seed \d+` */
  const SeedPattern := FlagPattern("--seed ", NoGap, Run(Digit))

  /** An element of `model_indicators`: one of the strings, or the bool the decimal-version
      search produced. */
  datatype ModelIndicator = Tag(text: string) | Flag(value: bool)

  /** `image_info.get('Description', '').lower()` */
  function DescriptionText(info: map<string, string>): string {
    Lower(GetOr(info, "Description", ""))
  }

  /** `model_indicators`: the nine strings, then the bool of the decimal-version search. */
  function ModelIndicators(description: string): seq<ModelIndicator> {
    [Tag("--v 1"), Tag("--v 2"), Tag("--v 3"), Tag("--v 4"), Tag("--v 5"), Tag("--v 6"),
     Tag("--niji"), Tag("--test"), Tag("--testp"), Flag(Found(description, DecimalVersionPattern))]
  }

  /** `any(indicator in description for indicator in indicators)` as Python evaluates it: a
      string that occurs ends the scan with True, and reaching the bool raises TypeError,
      because `bool in str` is not defined. */
  function AnyIn(indicators: seq<ModelIndicator>, description: string): Outcome<bool>
    decreases |indicators|
  {
    if indicators == [] then Returned(false)
    else
      match indicators[0]
      case Tag(t) => if Contains(description, t) then Returned(true) else AnyIn(indicators[1..], description)
      case Flag(_) => Raised(TypeError)
  }

  /** What an element of `model_indicators` is evidently meant to say: the string occurs, or
      the bool is true. */
  predicate Holds(indicator: ModelIndicator, description: string) {
    match indicator
    case Tag(t) => Contains(description, t)
    case Flag(b) => b
  }

  /** Some element holds. */
  predicate AnyHolds(indicators: seq<ModelIndicator>, description: string) {
    exists i :: 0 <= i < |indicators| && Holds(indicators[i], description)
  }

  /** Whenever the scan returns, it returns whether some element holds. */
  lemma {:induction false} AnyInAgrees(indicators: seq<ModelIndicator>, description: string)
    ensures AnyIn(indicators, description).Returned? ==>
              AnyIn(indicators, description).value == AnyHolds(indicators, description)
    decreases |indicators|
  {
    if indicators != [] && indicators[0].Tag? && !Contains(description, indicators[0].text) {
      AnyInAgrees(indicators[1..], description);
      if AnyHolds(indicators, description) {
        var i :| 0 <= i < |indicators| && Holds(indicators[i], description);
        assert Holds(indicators[1..][i - 1], description);
      }
    }
  }

  /** One of the nine strings occurs in the description. */
  predicate HasVersionTag(description: string) {
    exists i :: 0 <= i < |VersionTags| && Contains(description, VersionTags[i])
  }

  /** The scan over `model_indicators` returns, with True, exactly when one of the nine strings
      occurs; otherwise it reaches the bool and raises TypeError. */
  lemma ModelIndicatorsScan(description: string)
    ensures AnyIn(ModelIndicators(description), description) ==
              if HasVersionTag(description) then Returned(true) else Raised(TypeError)
  {
    var inds := ModelIndicators(description);
    forall i | 0 <= i < |VersionTags| ensures inds[i] == Tag(VersionTags[i]) {
    }
    TagScan(inds, description, 0);
  }

  lemma {:induction false} TagScan(inds: seq<ModelIndicator>, description: string, n: nat)
    requires |inds| == |VersionTags| + 1 && n <= |VersionTags| && inds[|VersionTags|].Flag?
    requires forall i :: 0 <= i < |VersionTags| ==> inds[i] == Tag(VersionTags[i])
    ensures AnyIn(inds[n..], description) ==
              if exists i :: n <= i < |VersionTags| && Contains(description, VersionTags[i])
              then Returned(true) else Raised(TypeError)
    decreases |VersionTags| - n
  {
    if n < |VersionTags| {
      TagScan(inds, description, n + 1);
      assert inds[n..][1..] == inds[n + 1..];
    }
  }

  /** 'midjourney' occurs in one of the values. */
  predicate MentionsMidjourney(info: map<string, string>) {
    exists k :: k in info && Contains(Lower(info[k]), "midjourney")
  }

  /** `'midjourney' in ' '.join(image_info.values()).lower()` is `MentionsMidjourney`, in
      whatever order the values are joined: no occurrence can span the joining blank. */
  lemma JoinedValuesMention(info: map<string, string>, values: seq<string>)
    requires forall v :: v in values <==> v in info.Values
    ensures Contains(Lower(Join(values, ' ')), "midjourney") <==> MentionsMidjourney(info)
  {
    var lowered := seq(|values|, i requires 0 <= i < |values| => Lower(values[i]));
    LowerJoin(values, ' ');
    ContainsJoin(lowered, ' ', "midjourney");
    if MentionsMidjourney(info) {
      var k :| k in info && Contains(Lower(info[k]), "midjourney");
      assert info[k] in info.Values;
      var i :| 0 <= i < |values| && values[i] == info[k];
      assert Contains(lowered[i], "midjourney");
    }
    if exists i :: 0 <= i < |lowered| && Contains(lowered[i], "midjourney") {
      var i :| 0 <= i < |lowered| && Contains(lowered[i], "midjourney");
      assert values[i] in info.Values;
    }
  }

  /** `any(indicators)` once the model-version element has the value `modelVersion`. */
  predicate AnyIndicator(info: map<string, string>, modelVersion: bool) {
    var d := DescriptionText(info);
    || StartsWith(d, "imagine")
    || Contains(Lower(GetOr(info, "Copyright", "")), "midjourney.com")
    || Found(GetOr(info, "filename", ""), FilenamePattern)
    || Contains(Lower(GetOr(info, "Software", "")), "mdjrny")
    || MentionsMidjourney(info)
    || modelVersion
    || Contains(d, "job id:")  // re.IGNORECASE on text already lower-cased
    || Contains(d, "--ar")
    || Contains(d, "--stylize")
    || Contains(d, "--quality")
    || Contains(d, "--profile")
    || Found(d, SeedPattern)
    || Contains(d, "--chaos")
    || Contains(d, "--stop")
    || Contains(d, "--style")
    || Contains(d, "--no")
    || Contains(d, "--iw")
  }

  /** `is_compatible` as written: the list `indicators` is built before `any` runs, so the
      model-version scan raises out of it whenever it reaches the bool. */
  function IsCompatibleAsWritten(info: map<string, string>): Outcome<bool> {
    var d := DescriptionText(info);
    var modelVersion :- AnyIn(ModelIndicators(d), d);
    Returned(AnyIndicator(info, modelVersion))
  }

  /** `is_compatible` as evidently intended: the bool counts as an indicator of its own. */
  predicate IsCompatibleCorrected(info: map<string, string>) {
    var d := DescriptionText(info);
    AnyIndicator(info, AnyHolds(ModelIndicators(d), d))
  }

  function IsCompatible(info: map<string, string>, rev: Revision): Outcome<bool> {
    if rev == AsWritten then IsCompatibleAsWritten(info) else Returned(IsCompatibleCorrected(info))
  }

  /** As written, `is_compatible` returns only when one of the nine strings occurs in the
      lower-cased Description, and then returns True; in every other case it raises TypeError.
      It never returns False. */
  lemma AsWrittenNeverFalse(info: map<string, string>)
    ensures IsCompatibleAsWritten(info) ==
              if HasVersionTag(DescriptionText(info)) then Returned(true) else Raised(TypeError)
  {
    ModelIndicatorsScan(DescriptionText(info));
  }

  /** Where the code as written returns, it agrees with the intended reading. */
  lemma AsWrittenAgreesWhenReturning(info: map<string, string>)
    ensures IsCompatibleAsWritten(info).Returned? ==>
              IsCompatibleAsWritten(info).value == IsCompatibleCorrected(info)
  {
    var d := DescriptionText(info);
    AnyInAgrees(ModelIndicators(d), d);
  }

  /** An image whose only Midjourney signal is its Software chunk: the intended check accepts
      it, the code as written raises TypeError. */
  lemma SoftwareOnlyRaises(info: map<string, string>)
    requires info == map["Software" := "mdjrny"]
    ensures IsCompatibleAsWritten(info) == Raised(TypeError)
    ensures IsCompatibleCorrected(info)
  {
    AsWrittenNeverFalse(info);
    assert DescriptionText(info) == [];
    assert Lower(GetOr(info, "Software", "")) == "mdjrny";
    assert "mdjrny" <= "mdjrny"[0..];
  }

  /** An image without text chunks: the code as written raises TypeError, the intended check
      rejects it. */
  lemma NoChunks(info: map<string, string>)
    requires info == map[]
    ensures IsCompatible(info, AsWritten) == Raised(TypeError)
    ensures IsCompatible(info, Corrected) == Returned(false)
  {
    AsWrittenNeverFalse(info);
    assert DescriptionText(info) == [];
  }

  /** The intended check accepts every image whose lower-cased Description contains one of
      the version strings, a decimal `--v` version, or a parameter keyword. */
  lemma CorrectedAcceptsParameters(info: map<string, string>)
    ensures var d := DescriptionText(info);
            HasVersionTag(d) || Found(d, DecimalVersionPattern) || Contains(d, "--ar") ==>
              IsCompatibleCorrected(info)
  {
    var d := DescriptionText(info);
    var inds := ModelIndicators(d);
    if HasVersionTag(d) {
      var i :| 0 <= i < |VersionTags| && Contains(d, VersionTags[i]);
      assert Holds(inds[i], d);
    }
    if Found(d, DecimalVersionPattern) {
      assert Holds(inds[9], d);
    }
  }

  // ---------------------------------------------------------------------------------
  // extract_metadata

  /** `mj_data.get(key, '')` */
  function FieldOr(fields: map<Field, string>, f: Field): string {
    if f in fields then fields[f] else ""
  }

  /** The record after the Description step: a non-empty Description is parsed and four of
      the values found are copied in, each "" when it was not found. */
  function AfterDescription(m: Metadata, description: string): Metadata {
    if description != "" then
      var fields := DescriptionFields(description);
      m.(prompt := FieldOr(fields, Prompt), version := FieldOr(fields, Version),
         profile := FieldOr(fields, Profile), jobId := FieldOr(fields, JobId))
    else m
  }

  /** The record `extract_metadata(image)` returns, given whether a 'Creation Time' text
      parses with '%Y-%m-%d %H:%M:%S'. */
  function ExtractedRecord(image: Image, parsesAsTime: string -> bool): Metadata {
    var info := DecodedInfo(image.info);
    var created :=
      if "Creation Time" in info && parsesAsTime(info["Creation Time"]) then ParsedTime(info["Creation Time"])
      else ImportTime;
    AfterDescription(Default.(width := image.width, height := image.height), GetOr(info, "Description", ""))
      .(createdDate := created, author := GetOr(info, "Author", ""))
  }

  /** `MidjourneyMetadataExtractor.extract_metadata`: fills a fresh record field by field. */
  method Extract(image: Image, parsesAsTime: string -> bool) returns (metadata: AIImageMetadata)
    ensures fresh(metadata)
    ensures metadata.Value() == ExtractedRecord(image, parsesAsTime)
  {
    metadata := new AIImageMetadata();
    metadata.width := image.width;
    metadata.height := image.height;
    var imageMetadata := DecodeInfo(image.info);
    CopyDescription(metadata, GetOr(imageMetadata, "Description", ""));
    if "Creation Time" in imageMetadata && parsesAsTime(imageMetadata["Creation Time"]) {
      metadata.createdDate := ParsedTime(imageMetadata["Creation Time"]);
    }
    metadata.author := GetOr(imageMetadata, "Author", "");
  }

  /** The Description step of `extract_metadata`. */
  method CopyDescription(metadata: AIImageMetadata, description: string)
    modifies metadata
    ensures metadata.Value() == AfterDescription(old(metadata.Value()), description)
  {
    if description != "" {
      var mjData := ParseDescription(description);
      metadata.prompt := FieldOr(mjData, Prompt);
      metadata.version := FieldOr(mjData, Version);
      metadata.profile := FieldOr(mjData, Profile);
      metadata.jobId := FieldOr(mjData, JobId);
    }
  }

  /** An empty description yields no fields, so the `if description:` guard changes nothing. */
  lemma EmptyDescriptionHasNoFields()
    ensures DescriptionFields("") == map[]
  {
    FieldsHoldFindings("", Prompt);
    assert !DashesAfterSpaces("", 0);
    forall f: Field | f != Prompt ensures f !in DescriptionFields("") {
      FieldsHoldFindings("", f);
      PatternsWellFormed();
      assert !FlagAt("", 0, f.Pattern().value.flag);
    }
  }

  /** The record's prompt, version, profile and job_id are the values `parse_description`
      finds in the Description, "" for each one it does not find; width and height are the
      image's, author is the Author chunk or "", source_model keeps its default, and the
      creation date is replaced exactly when 'Creation Time' is present and parses. */
  lemma ExtractedFields(image: Image, parsesAsTime: string -> bool)
    ensures var info := DecodedInfo(image.info);
            var fields := DescriptionFields(GetOr(info, "Description", ""));
            var r := ExtractedRecord(image, parsesAsTime);
            && r.prompt == FieldOr(fields, Prompt) && r.version == FieldOr(fields, Version)
            && r.profile == FieldOr(fields, Profile) && r.jobId == FieldOr(fields, JobId)
            && r.width == image.width && r.height == image.height
            && r.author == GetOr(info, "Author", "") && r.sourceModel == "unknown"
            && (r.createdDate != ImportTime <==> "Creation Time" in info && parsesAsTime(info["Creation Time"]))
            && (r.createdDate != ImportTime ==> r.createdDate == ParsedTime(info["Creation Time"]))
  {
    EmptyDescriptionHasNoFields();
  }

  /** Each copied value keeps to its pattern's characters: the version is digits and dots,
      the profile word characters, the job id lower-case hex digits and '-'; the prompt has
      no surrounding whitespace. */
  lemma ExtractedCharacters(image: Image, parsesAsTime: string -> bool)
    ensures var r := ExtractedRecord(image, parsesAsTime);
            && ValueCharacters(r.version, Version) && ValueCharacters(r.profile, Profile)
            && ValueCharacters(r.jobId, JobId) && IsStripped(r.prompt)
  {
    var description := GetOr(DecodedInfo(image.info), "Description", "");
    ExtractedFields(image, parsesAsTime);
    var fields := DescriptionFields(description);
    if Version in fields {
      FieldCharacters(description, Version);
    }
    if Profile in fields {
      FieldCharacters(description, Profile);
    }
    if JobId in fields {
      FieldCharacters(description, JobId);
    }
    if Prompt in fields {
      PromptField(description);
    }
  }
}

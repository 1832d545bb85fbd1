# AI metadata recovery, modelled in Dafny

This project models the metadata-recovery core of AI-Metadata-Organizer. That core reads
the text chunks of an AI-generated PNG and recovers the generation metadata it carries.
The core has four parts.

- **Ordered dispatch.** `MetadataExtractorFactory.create_extractor` asks the EmProps
  extractor first and the Midjourney extractor second. It uses the first one that
  recognises the image.
- **Midjourney.** An image is recognised from keyword and pattern signals in its chunks.
  Its record is filled from what `parse_description` finds in the `Description` chunk.
  That function runs six independent searches: the prompt prefix, `--ar`, `--profile`,
  `--stylize`, `--v` and `Job ID:`.
- **EmProps.** An image is recognised by an `EmProps_S3_Saver` node in the ComfyUI
  workflow stored in its `prompt` chunk. From that node graph the extractor reads:
  - the prompt, from `CLIPTextEncode` nodes;
  - the profile, from the first checkpoint or UNET loader;
  - the version, from the first sampler.
- **Entry point.** `extract_metadata` decodes the chunks, runs the chosen extractor and
  stamps `source_model` with the model's enum name. `extract_clean_prompts` splits a prompt
  into sub-prompts. For EmProps and Stable Diffusion it splits on commas. Otherwise it
  splits on `::weight` separators and drops the segments whose weight is negative.

Modules, one per concern:

| module | models |
|---|---|
| `Outcomes` | Python's "returns a value or raises" (`Outcome`), the exceptions involved, `Option` |
| `Text` | the string operations used: `strip`, `lower`, `split`, `join`, `replace`, `in`, `str(int)` |
| `Patterns` | one hand-written scanner per regular expression shape; each is proved equivalent to a declarative reading of the regular expression |
| `PyJson` | a parsed JSON document and the dict/list operations applied to it, including comprehensions |
| `Record` | the `AIImageMetadata` dataclass, as a class whose fields the extractors assign |
| `Images` | the image as its `info` chunks and size; the chunk-decoding loop |
| `Description` | `parse_description` and `extract_clean_prompts` |
| `DescriptionCases` | the worked examples of those two functions |
| `Base` | `AIModelType`; the two extractor kinds; the choice of revision (see Findings) |
| `Midjourney` | `MidjourneyMetadataExtractor.is_compatible` and `extract_metadata` |
| `EmProps` | `EmPropsMetadataExtractor.is_compatible` and `extract_metadata` |
| `EmPropsCases` | the worked example of the prompt choice |
| `Factory` | `create_extractor` |
| `Extraction` | the `extract_metadata` entry point |

The operations that change state are methods proved against functions:
- the chunk-decoding loop;
- the key-by-key insertions of `parse_description`;
- the step-by-two loop of `extract_clean_prompts`;
- the field-by-field filling of a record by both extractors;
- the stamping of `source_model`.

The functions' properties are then stated as lemmas.

`json.loads` and `datetime.strptime` are parameters of the model:
- `loads: Loads` returns None where Python raises JSONDecodeError. The type `PyJson.Loads`
  admits only functions whose every object, nested ones included, has distinct keys, as
  every Python dict has;
- `parsesAsTime: string -> bool` says whether a text parses with `'%Y-%m-%d %H:%M:%S'`.

Two defects are modelled as written and as evidently intended. The choice is selected by
`Base.Revision` (`AsWritten` or `Corrected`); see "## Findings".

## Model

| member | source | states |
|---|---|---|
| Base.FromValue | src/app/api/core/models/base.py:12-17 | `AIModelType(v)` names a member exactly for the values 0 to 3 |
| Base.ValuesAndNamesIdentify | src/app/api/core/models/base.py:12-17 | every member is found again from its value, and no two members share a name, so `source_model` identifies the model |
| Record.AIImageMetadata.constructor | src/app/api/core/metadata.py:11-23 | a fresh record has every field at its default: "" for the texts, 0 for the size, the import-time date, "unknown" as source model |
| Images.DecodeInfo | src/app/api/core/metadata.py:43-53 | the loop keeps every text value and the UTF-8 decoding of every bytes value that decodes; it skips the bytes values that do not decode |
| Factory.ChosenIsCompatible | src/app/api/core/models/base.py:70-80 | EmProps is chosen exactly when its check returns True. Midjourney is chosen exactly when the EmProps check returns False and the Midjourney check True. An exception of a check ends the search |
| Factory.AsWrittenNeverNone | src/app/api/core/models/base.py:76-80 | as written the factory never returns None. An image EmProps does not claim goes to Midjourney when its Description has a version tag; otherwise the search raises TypeError |
| Factory.CorrectedChoice | src/app/api/core/models/base.py:76-80 | with the corrected check the factory returns None exactly when neither extractor recognises the image. It raises only AttributeError, and it agrees with the code as written wherever that returns |
| Factory.NoChunks | src/app/api/core/models/base.py:76-80 | with no text chunks the factory as written raises TypeError; the corrected one returns None |
| Extraction.ExtractMetadata | src/app/api/core/metadata.py:25-66 | returns None when no extractor is chosen, or the extractor's own fresh record stamped with the extractor's model name; exceptions of the checks and extractors escape |
| Extraction.RunAndStamp | src/app/api/core/metadata.py:57-63 | the chosen extractor's record, when it returns one, gets `source_model` set to the extractor's enum name; a missing record gives None |
| Extraction.SourceModelNamesExtractor | src/app/api/core/metadata.py:56-63 | every returned record names its model as "EMPROPS" or "MIDJOURNEY", and "EMPROPS" exactly when the EmProps check recognised the image |
| Extraction.NoFallback | src/app/api/core/metadata.py:56-66 | when EmProps recognises the image but its extractor returns None, the result is None and Midjourney is not tried. A returned record then has author "EmProps" |
| Extraction.MidjourneyAlwaysRecords | src/app/api/core/metadata.py:57-63 | once Midjourney is chosen, the result is its record with source model "MIDJOURNEY" |
| Extraction.CorrectedNone | src/app/api/core/metadata.py:56-66 | in the corrected code, None comes exactly from "no extractor recognises the image" or "EmProps recognised it and found no usable prompt data" |
| Extraction.PlainImage | src/app/api/core/metadata.py:56 | an image without text chunks: as written `extract_metadata` raises TypeError, corrected it returns None |
| Midjourney.AnyInAgrees | src/app/api/core/models/midjourney.py:50 | when `any(indicator in description ...)` returns, it returns whether some element holds: the string occurs, or the bool is true |
| Midjourney.ModelIndicatorsScan | src/app/api/core/models/midjourney.py:33-50 | the scan over `model_indicators` returns True exactly when one of the nine version strings occurs; otherwise it reaches the bool and raises TypeError |
| Midjourney.JoinedValuesMention | src/app/api/core/models/midjourney.py:47 | 'midjourney' occurs in the lower-cased blank-joined values exactly when it occurs in one lower-cased value, whatever the order of the values |
| Midjourney.AsWrittenNeverFalse | src/app/api/core/models/midjourney.py:30-67 | as written `is_compatible` returns True when a version string occurs in the lower-cased Description, and raises TypeError otherwise; it never returns False |
| Midjourney.AsWrittenAgreesWhenReturning | src/app/api/core/models/midjourney.py:41-67 | wherever the code as written returns, it returns `any(indicators)` with the model-version element read as intended |
| Midjourney.SoftwareOnlyRaises | src/app/api/core/models/midjourney.py:46-50 | an image whose only signal is "mdjrny" in Software is accepted by the intended check; the code as written raises TypeError on it |
| Midjourney.NoChunks | src/app/api/core/models/midjourney.py:30-50 | with no chunks the check as written raises TypeError; the intended check answers False |
| Midjourney.CorrectedAcceptsParameters | src/app/api/core/models/midjourney.py:33-54 | the intended check accepts a Description holding a version string, a decimal `--v` version, or `--ar` |
| Midjourney.Extract | src/app/api/core/models/midjourney.py:69-119 | returns a fresh record, never None, filled as `ExtractedRecord` describes (see ExtractedFields) |
| Midjourney.CopyDescription | src/app/api/core/models/midjourney.py:98-104 | a non-empty Description sets prompt, version, profile and job_id from `parse_description`; nothing else changes, and an empty Description changes nothing |
| Midjourney.EmptyDescriptionHasNoFields | src/app/api/core/models/midjourney.py:98-99 | `parse_description("")` finds nothing, so with a missing or empty Description the four fields keep their "" defaults |
| Midjourney.ExtractedFields | src/app/api/core/models/midjourney.py:79-119 | prompt, version, profile and job_id are the values `parse_description` found, "" where it found none. Width and height are the image's and author is the Author chunk or "". source_model keeps "unknown". The date is replaced exactly when Creation Time is present and parses, and then by that time |
| Midjourney.ExtractedCharacters | src/app/api/core/models/midjourney.py:98-104 | the version is digits and dots, the profile word characters, the job id lower-case hex digits and '-', and the prompt has no surrounding whitespace |
| Description.KeysDistinct | src/app/api/core/metadata.py:83-108 | the six keys are six different strings |
| Description.StoredHoldsFindings | src/app/api/core/metadata.py:78-110 | no insertion overwrites another: after n steps the dictionary holds exactly the findings of the first n keys, each under its own key |
| Description.StoredAllFound | src/app/api/core/metadata.py:78-110 | when all six searches succeed the dictionary holds all six keys with their values |
| Description.FieldsHoldFindings | src/app/api/core/metadata.py:78-110 | a key is present exactly when its search found something, and holds what was found |
| Description.StoreFindings | src/app/api/core/metadata.py:82-108 | the six `if match: metadata[key] = ...` steps build exactly the dictionary of the findings |
| Description.ParseDescription | src/app/api/core/metadata.py:68-110 | `parse_description` returns the dictionary of what the six searches find, over the six keys only |
| Description.FlagFindingIsSearch | src/app/api/core/metadata.py:86-108 | each key other than the prompt is present exactly when `re.search` of its pattern succeeds, and holds the captured group |
| Description.FlagValuesNonEmpty | src/app/api/core/metadata.py:86-108 | every key other than the prompt maps to a non-empty string |
| Description.PromptField | src/app/api/core/metadata.py:81-83 | the prompt is present exactly when, before any newline, a whitespace run is followed by "--"; it is the stripped text before the first such run |
| Description.FlagField | src/app/api/core/metadata.py:86-108 | each other key is present exactly when its regular expression matches somewhere; it holds the value captured at the leftmost match, a member of the token's language |
| Description.FieldCharacters | src/app/api/core/metadata.py:86-108 | aspect_ratio is digits ':' digits, stylize digits, version digits and dots, job_id lower-case hex digits and '-', and profile word characters |
| Description.StrippedNonBlankSpec | src/app/api/core/metadata.py:127 | the comprehension keeps exactly the parts that do not strip to "", stripped; every kept prompt is non-empty and stripped, and none is invented |
| Description.StrippedNonBlankAppend | src/app/api/core/metadata.py:127 | the comprehension over two lists of parts is the comprehension over the first followed by the one over the second, and one part contributes its stripped text, or nothing when that is blank; order and repetitions are kept |
| Description.CommaPromptsAppend | src/app/api/core/metadata.py:126-127 | the prompts of a description cut at a comma are those of the text before it followed by those of the text after it; text without a comma gives itself stripped, or nothing when blank |
| Description.StrippedNonBlankOrder | src/app/api/core/metadata.py:127 | when no part is blank, the result is every part stripped, in order |
| Description.CommaExample | src/app/api/core/metadata.py:124-127 | "cat, space, nebula" gives ["cat", "space", "nebula"] |
| Description.PositiveWeightIsFailedSearch | src/app/api/core/metadata.py:146 | a separator counts as positive exactly when `::\s*-` matches nowhere in it |
| Description.PairPromptsStep | src/app/api/core/metadata.py:141-147 | one more (segment, separator) pair appends its stripped segment exactly when the segment is not blank and the weight is not negative |
| Description.CollectPairs | src/app/api/core/metadata.py:140-147 | the `range(0, len(parts)-1, 2)` loop collects the prompts of all (segment, separator) pairs |
| Description.CollectPair | src/app/api/core/metadata.py:142-147 | one iteration adds the pair's prompt and nothing else |
| Description.ExtractCleanPrompts | src/app/api/core/metadata.py:112-153 | `extract_clean_prompts` returns the comma prompts for EMPROPS and STABLE_DIFFUSION. Otherwise it returns [] when there is no prompt prefix, and else the kept pairs' prompts then the non-blank trailing segment |
| Description.CollectWeighted | src/app/api/core/metadata.py:140-151 | the loop's prompts, followed by the trailing segment when it is not blank |
| Description.CleanPromptsStripped | src/app/api/core/metadata.py:124-153 | every returned prompt is non-empty and has no surrounding whitespace, on both branches |
| Description.PairPromptsSpec | src/app/api/core/metadata.py:141-147 | a segment enters the result exactly when it sits at an even position, is not blank, and its separator carries no negative weight |
| Description.NoParametersNoPrompts | src/app/api/core/metadata.py:131-133 | on the default branch, a description with no whitespace run followed by "--" on its first line gives [] |
| Description.UnweightedPrompt | src/app/api/core/metadata.py:135-151 | a prompt prefix without "::" is returned whole and stripped, or not at all when blank |
| Description.CleanPromptsMembership | src/app/api/core/metadata.py:138-151 | on the default branch a prompt is returned exactly when it is a kept pair's segment or the non-blank trailing segment |
| DescriptionCases.RedSkyExample | src/app/api/core/metadata.py:138-153 | "red sky::2 blue sea::-1 --ar 1:1" with MIDJOURNEY gives ["red sky"] |
| DescriptionCases.RedSkySplit | src/app/api/core/metadata.py:138 | `re.split` cuts "red sky::2 blue sea::-1" into "red sky", "::2 ", "blue sea", "::-1" and "" |
| DescriptionCases.MinusOneNegative | src/app/api/core/metadata.py:146 | "::-1" is a negative weight |
| DescriptionCases.TwoPositive | src/app/api/core/metadata.py:146 | "::2 " is not a negative weight |
| DescriptionCases.ParseExample | src/app/api/core/metadata.py:80-108 | "a cat in space --ar 16:9 --profile fast --stylize 250 --v 6.0 Job ID: ab12-34cd" gives prompt "a cat in space", aspect_ratio "16:9", profile "fast", stylize "250", version "6.0" and job_id "ab12-34cd" |
| EmProps.IsCompatibleSpec | src/app/api/core/models/emprops.py:20-43 | the check answers True exactly when 'prompt' is a JSON object with a member of class EmProps_S3_Saver. It raises AttributeError for JSON that is not an object, and answers False when 'prompt' is missing or not JSON |
| EmProps.StoreChoices | src/app/api/core/models/emprops.py:86-138 | the graph steps change only prompt, profile, version and author; when they complete, author is "EmProps" |
| EmProps.RunTryBlock | src/app/api/core/models/emprops.py:66-138 | the `try` block updates the record step by step. On an exception it leaves the record as the earlier steps left it and returns that exception |
| EmProps.StoreChoicesInto | src/app/api/core/models/emprops.py:70-138 | the selections and assignments after `json.loads` leave the record as StoreChoices describes |
| EmProps.Extract | src/app/api/core/models/emprops.py:45-146 | `extract_metadata` returns None for empty prompt data. Otherwise it returns a fresh record, or None when a caught exception left the prompt empty; uncaught exceptions escape |
| EmProps.PositiveIsNonBlank | src/app/api/core/models/emprops.py:79-84 | a positive node's text does not strip to "" |
| EmProps.PromptChoicePositive | src/app/api/core/models/emprops.py:79-87 | when some text node is positive, the prompt is the unstripped text of the first positive node in document order |
| EmProps.PromptChoiceFallback | src/app/api/core/models/emprops.py:88-95 | with no positive node, the prompt is the text of the first text node whose text is not blank; none is stored exactly when there is no such node |
| EmProps.TextNodeErrors | src/app/api/core/models/emprops.py:70-95 | the conditions evaluated on a text node raise only TypeError or AttributeError |
| EmProps.PromptChoiceErrors | src/app/api/core/models/emprops.py:70-95 | the prompt selection raises only TypeError or AttributeError, neither of which the `except` clause catches |
| EmProps.ProfileChoiceErrors | src/app/api/core/models/emprops.py:98-110 | the profile selection raises only TypeError or AttributeError |
| EmProps.VersionChoiceErrors | src/app/api/core/models/emprops.py:113-131 | the version selection raises only TypeError or AttributeError, plus UnboundLocalError as written |
| EmProps.StoreChoicesErrors | src/app/api/core/models/emprops.py:70-140 | the graph steps raise only those errors, so KeyError and IndexError never reach the `except` clause |
| EmProps.ProfileChoiceSpec | src/app/api/core/models/emprops.py:98-110 | the profile is the model file named by the first CheckpointLoaderSimple/UNETLoader node, `ckpt_name` before `unet_name`, with ".safetensors" removed. None is stored when there is no loader or its name is empty |
| EmProps.LoaderProfileSpec | src/app/api/core/models/emprops.py:107-110 | a loader yields a profile exactly when its model name is truthy; the profile is that name with ".safetensors" removed |
| EmProps.SafetensorsRemoved | src/app/api/core/models/emprops.py:110 | a model file `base + ".safetensors"` gives the profile `base` |
| EmProps.VersionChoiceSpec | src/app/api/core/models/emprops.py:113-131 | with a sampler node both revisions store a version and agree. Without one, the code as written raises UnboundLocalError and the corrected code stores none |
| EmProps.VersionRecordsSampler | src/app/api/core/models/emprops.py:113-124 | the version is "SD_" + sampler_name + "_" + steps + "steps" from the first sampler node, with "" for a missing key |
| EmProps.VersionStringDigits | src/app/api/core/models/emprops.py:124 | for an integer step count the digits between "SD_name_" and "steps" read back as that count |
| EmProps.NoPartialRecord | src/app/api/core/models/emprops.py:62-146 | None comes exactly from empty prompt data or a JSONDecodeError. A record is returned only when the whole `try` block ran; it has author "EmProps", the image's size and the other defaults. Every other exception escapes |
| EmProps.PromptChoiceMeaning | src/app/api/core/models/emprops.py:79-95 | the prompt stored is the text of a non-blank text node, the first positive one if any; it stays "" only when there is no such node |
| EmProps.ReturnedRecord | src/app/api/core/models/emprops.py:55-146 | a returned record is what the completed graph steps built on the image's size |
| EmProps.CompletedChoices | src/app/api/core/models/emprops.py:86-138 | graph steps that completed stored the prompt, profile and version selections' choices (the old field where a selection chose nothing) and the author "EmProps" |
| EmProps.ExtractedContents | src/app/api/core/models/emprops.py:70-146 | the prompt of a returned record is one the graph accounts for; as written, a record is returned only for a graph with a sampler node |
| EmProps.SaverOnlyGraph | src/app/api/core/models/emprops.py:113-131 | a workflow holding only the saver node is recognised. As written its extraction then raises UnboundLocalError; corrected it returns a record with the image's size and author "EmProps" |
| EmPropsCases.DragonExample | src/app/api/core/models/emprops.py:79-87 | nodes titled "Positive (Prompt)" with "a dragon" and "Negative (negative)" with "ugly" give the prompt "a dragon" |
| Patterns.ScannerMatchIsRegexMatch | src/app/api/core/metadata.py:86-108 | where the scanner succeeds, the regular expression matches with the scanner's whitespace and token lengths |
| Patterns.RegexMatchIsScannerMatch | src/app/api/core/metadata.py:86-108 | where the regular expression matches, the scanner succeeds with the same whitespace and a token at least as long (the greedy capture) |
| Patterns.MatchAtIsRegexMatch | src/app/api/core/metadata.py:86-108 | the scanner succeeds at a position exactly when the regular expression matches there |
| Patterns.ScannerValueIsLongest | src/app/api/core/metadata.py:86-108 | the scanner's value is what Python's backtracking matcher captures at that position |
| Patterns.SearchSpec | src/app/api/core/metadata.py:86-108 | the search finds nothing exactly when the regular expression matches nowhere; otherwise it returns the capture at the leftmost match |
| Patterns.FoundSpec | src/app/api/core/models/midjourney.py:37 | `bool(re.search(...))` holds exactly when the regular expression matches somewhere |
| Patterns.DashesAfterSpacesIsLookahead | src/app/api/core/metadata.py:81 | the scanner's test is exactly the lookahead `(?=\s+--)` |
| Patterns.PromptEndSpec | src/app/api/core/metadata.py:81 | `re.match(r'(.*?)(?=\s+--)')` ends group 1 at the first position, before any newline, where the lookahead holds; it fails exactly when there is no such position |
| Patterns.PromptEndAt | src/app/api/core/metadata.py:81-83 | a first line without "--" and without trailing whitespace, then whitespace and "--": group 1 is exactly that line |
| Patterns.WeightSepLenSpec | src/app/api/core/metadata.py:138 | the separator scanner finds a separator at a position exactly when the regular expression `::[\s-]*[\d.]+\s*` matches there, and its length is then that of the longest match |
| Patterns.WeightSplitSpec | src/app/api/core/metadata.py:138 | the pieces of `re.split` concatenate back to the prompt, every odd-numbered piece is a captured "::" separator, no separator match starts inside a text piece, and each separator piece is as long as the longest match where it starts |
| Patterns.WeightSplitUnique | src/app/api/core/metadata.py:138 | any list of pieces that concatenates to the prompt and is cut that way is the result of `re.split` |
| Patterns.WeightSplitUnweighted | src/app/api/core/metadata.py:138 | a prompt without "::" is not split |
| Patterns.WeightSplitCut | src/app/api/core/metadata.py:138 | text without ':' in front of a whole separator: the split cuts off the text and the separator, then splits the rest |
| Text.Strip | src/app/api/core/metadata.py:83 | `strip()` leaves no surrounding whitespace, and returns already-stripped text unchanged |
| Text.StripSpec | src/app/api/core/metadata.py:83 | `strip()` is the middle of the text between a whitespace prefix and a whitespace suffix |
| Text.StripBlank | src/app/api/core/metadata.py:127 | `strip()` gives "" exactly when the text is all whitespace |
| Text.Split | src/app/api/core/metadata.py:126 | `split(',')` gives at least one piece, no piece holds a comma, and joining the pieces with commas gives the text back |
| Text.SplitAround | src/app/api/core/metadata.py:126 | splitting text at one of its commas splits the text on each side independently |
| Text.SplitJoin | src/app/api/core/metadata.py:126 | `split` undoes `join` when no part holds the separator |
| Text.ContainsJoin | src/app/api/core/models/midjourney.py:47 | a pattern without the separator occurs in the joined text exactly when it occurs in one part |
| Text.LowerJoin | src/app/api/core/models/midjourney.py:47 | lower-casing the joined text lower-cases each part |
| Text.RemoveAllWithout | src/app/api/core/models/emprops.py:110 | `replace(pat, '')` leaves text without `pat` unchanged |
| Text.RemoveAllSuffix | src/app/api/core/models/emprops.py:110 | `replace(pat, '')` on `base + pat` gives `base` back when `base` has no occurrence of `pat` |
| Text.NatToString | src/app/api/core/models/emprops.py:124 | `str(n)` is a non-empty run of digits |
| Text.NatToStringRoundTrip | src/app/api/core/models/emprops.py:124 | the digits of `str(n)` denote `n` |
| PyJson.LookupDistinct | src/app/api/core/models/emprops.py:73-75 | in an object whose keys are distinct, looking up a member's key finds that member's value |
| PyJson.LookupSpec | src/app/api/core/models/emprops.py:73-75 | a dict lookup finds the value of the first member with the key, and nothing exactly when no member has it |
| PyJson.Values | src/app/api/core/models/emprops.py:40 | `values()` exists only on a dict, and gives its member values in document order |
| PyJson.FilterSpec | src/app/api/core/models/emprops.py:70-76 | a completed comprehension keeps exactly the elements whose condition is true, in order. Its first element is the first such element, and it is empty only when every condition is false |
| PyJson.FilterRaises | src/app/api/core/models/emprops.py:70-76 | a comprehension raises exactly when some condition raises, and with that condition's exception |
| PyJson.FilterFilter | src/app/api/core/models/emprops.py:79-84 | filtering a comprehension's result again is one comprehension with both conditions |
| PyJson.FilterFirst | src/app/api/core/models/emprops.py:87 | the first element kept is the first element whose condition is true |

## Left out

- Character classes: `\s`, `\d`, `\w`, `str.lower()` and `str.strip()` are restricted to
  ASCII. Python's Unicode whitespace, digits, letters and case mapping beyond ASCII are not
  modelled.
- Regular expressions: only the shapes the core uses are modelled, each by a scanner.
  Python's general matcher is not modelled.
- `json.loads` is not modelled. It is the parameter `loads`, and JSON numbers are integers.
  A document with a repeated key, which `json.loads` turns into a dict holding the last
  value, is taken in that already-resolved form: `loads` returns objects with distinct keys.
  Floats, and `repr` of floats and of escaped strings in the version text, are not modelled.
- Byte decoding: bytes in `image.info` are modelled by their UTF-8 decoding, if any. The
  `json.loads` detection of UTF-16 and UTF-32 input is not modelled.
- Non-text `info` values, such as `dpi` tuples or `gamma` floats, are taken as the text
  `str()` gives them.
- Dates: `datetime.strptime` is not modelled. It is the parameter `parsesAsTime`, and a
  parsed date is kept as its text. The date default is opaque: the `datetime.now()`
  evaluated once when `metadata.py` is imported.
- `if not metadata.created_date` (emprops.py:134-135) never fires because a datetime is
  always truthy, so the second `datetime.now()` is not modelled.
- `print` logging, PIL image decoding, and the FastAPI route in
  `src/app/api/extract-metadata.py` with its serialisation and HTTP responses: I/O, not
  part of this model. The UI in `src/app/page.tsx` and `src/app/components` is not part of
  this model either.
- The one-hop sampler resolution (emprops.py:127-131) only ever evaluates its `elif`
  condition, which raises UnboundLocalError. The model has that exception and not the
  unreachable lookup behind it.
- The base class `model_type` (UNKNOWN, base.py:22-25) belongs to no concrete extractor, so
  no extractor of the model reports UNKNOWN.
- `model_indicators` and the `_meta` title are each evaluated once. The model reads them as
  values, because evaluating them again gives the same value.
- DescriptionCases.ParseExample states its input as the concatenation of its six pieces,
  the prompt and the five flags in order. That concatenation is the same string as the
  literal.
- Midjourney.CorrectedAcceptsParameters names three kinds of signal: version strings, a
  decimal `--v`, and `--ar`. The other signals are disjuncts of `IsCompatibleCorrected`
  itself.

## Findings

| source | as written | input that shows it | evidently intended | confidence | as-written member | corrected member |
|---|---|---|---|---|---|---|
| src/app/api/core/models/midjourney.py:33-50 | `model_indicators` ends with a bool, and `indicator in description` raises TypeError when the scan reaches it. `is_compatible` therefore raises unless one of the nine version strings occurs, and it never returns False | info `{"Software": "mdjrny"}`, or an image without text chunks | the bool counts as an indicator of its own, and `is_compatible` is `any(indicators)` | not executed | Midjourney.SoftwareOnlyRaises, Extraction.PlainImage | Midjourney.CorrectedAcceptsParameters, Factory.CorrectedChoice |
| src/app/api/core/models/emprops.py:120-131 | the indirect-sampler branch is an `elif` of `if sampler_nodes:`. It runs only without a sampler node, and then reads the unassigned `sampler_node`, so UnboundLocalError escapes `extract_metadata` | a workflow whose only node is `{"class_type": "EmProps_S3_Saver"}` | a graph without a sampler leaves the version at its default | not executed | EmProps.SaverOnlyGraph | EmProps.VersionChoiceSpec, EmProps.NoPartialRecord |

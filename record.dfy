/** The `AIImageMetadata` dataclass: the record every extractor fills in. */
module Record {
  import opened Outcomes

  /** `created_date`. Its default is the `datetime.now()` evaluated once when the module is
      imported; a parsed 'Creation Time' replaces it. Dates are kept as the text they came from. */
  datatype CreatedDate = ImportTime | ParsedTime(text: string)

  /** The values of the record's fields. */
  datatype Metadata = Metadata(
    prompt: string,
    width: int,
    height: int,
    version: string,
    profile: string,
    jobId: string,
    createdDate: CreatedDate,
    author: string,
    sourceModel: string)

  /** The dataclass defaults. */
  const Default := Metadata("", 0, 0, "", "", "", ImportTime, "", "unknown")

  class AIImageMetadata {
    var prompt: string
    var width: int
    var height: int
    var version: string
    var profile: string
    var jobId: string
    var createdDate: CreatedDate
    var author: string
    var sourceModel: string

    /** `AIImageMetadata()`: every field at its default. */
    constructor ()
      ensures Value() == Default
    {
      prompt, width, height := "", 0, 0;
      version, profile, jobId := "", "", "";
      createdDate, author, sourceModel := ImportTime, "", "unknown";
    }

    /** The current values of the fields. */
    function Value(): Metadata
      reads this
    {
      Metadata(prompt, width, height, version, profile, jobId, createdDate, author, sourceModel)
    }
  }

  /** What an extractor call produced, read through the record it returned. */
  function Snapshot(r: Outcome<Option<AIImageMetadata>>): Outcome<Option<Metadata>>
    reads if r.Returned? && r.value.Some? then {r.value.value} else {}
  {
    match r
    case Raised(e) => Raised(e)
    case Returned(None) => Returned(None)
    case Returned(Some(m)) => Returned(Some(m.Value()))
  }
}

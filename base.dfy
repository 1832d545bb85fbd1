/** The model types and the extractors that recognise them. */
module Base {
  import opened Outcomes

  /** `AIModelType`. */
  datatype AIModelType = Unknown | Midjourney | StableDiffusion | EmProps {
    /** The member's `.value`. */
    function Value(): nat {
      match this
      case Unknown => 0
      case Midjourney => 1
      case StableDiffusion => 2
      case EmProps => 3
    }

    /** The member's `.name`, which `extract_metadata` writes into `source_model`. */
    function Name(): string {
      match this
      case Unknown => "UNKNOWN"
      case Midjourney => "MIDJOURNEY"
      case StableDiffusion => "STABLE_DIFFUSION"
      case EmProps => "EMPROPS"
    }
  }

  /** `AIModelType(v)`: the member with value `v`, if any. */
  function FromValue(v: int): (t: Option<AIModelType>)
    ensures t.Some? <==> 0 <= v <= 3
  {
    if v == 0 then Some(Unknown)
    else if v == 1 then Some(Midjourney)
    else if v == 2 then Some(StableDiffusion)
    else if v == 3 then Some(EmProps)
    else None
  }

  /** Each member is found again from its value, and from its name: values and names are
      both unique. */
  lemma ValuesAndNamesIdentify(t: AIModelType, u: AIModelType)
    ensures FromValue(t.Value()) == Some(t)
    ensures t.Name() == u.Name() ==> t == u
  {
  }

  /** The concrete extractors. The base class's `model_type` is UNKNOWN; each extractor
      overrides it. */
  datatype Extractor = EmPropsExtractor | MidjourneyExtractor {
    function ModelType(): AIModelType {
      match this
      case EmPropsExtractor => EmProps
      case MidjourneyExtractor => Midjourney
    }
  }

  /** Which reading of the code is modelled: the code as it is written, or the code with the
      two defects described in the project's findings repaired. */
  datatype Revision = AsWritten | Corrected
}

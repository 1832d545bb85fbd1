/** `MetadataExtractorFactory.create_extractor`: the extractors are asked in a fixed order,
    EmProps first, and the first that recognises the image is used. */
module Factory {
  import opened Outcomes
  import opened PyJson
  import opened Base
  import EmProps
  import Midjourney

  /** `create_extractor(image_info)`: an exception raised by a compatibility check escapes. */
  function CreateExtractor(info: map<string, string>, loads: Loads, rev: Revision)
    : Outcome<Option<Extractor>>
  {
    var emprops :- EmProps.IsCompatible(info, loads);
    if emprops then Returned(Some(EmPropsExtractor))
    else
      var midjourney :- Midjourney.IsCompatible(info, rev);
      if midjourney then Returned(Some(MidjourneyExtractor)) else Returned(None)
  }

  /** An extractor is chosen only when it recognises the image, and EmProps wins over
      Midjourney; an exception of a check ends the search. */
  lemma ChosenIsCompatible(info: map<string, string>, loads: Loads, rev: Revision)
    ensures CreateExtractor(info, loads, rev) == Returned(Some(EmPropsExtractor)) <==>
              EmProps.IsCompatible(info, loads) == Returned(true)
    ensures CreateExtractor(info, loads, rev) == Returned(Some(MidjourneyExtractor)) <==>
              EmProps.IsCompatible(info, loads) == Returned(false) && Midjourney.IsCompatible(info, rev) == Returned(true)
    ensures CreateExtractor(info, loads, rev).Raised? <==>
              EmProps.IsCompatible(info, loads).Raised?
              || (EmProps.IsCompatible(info, loads) == Returned(false) && Midjourney.IsCompatible(info, rev).Raised?)
  {
  }

  /** As written, the factory never reports that no extractor fits: an image EmProps does not
      claim goes to Midjourney when its Description carries a version string, and otherwise
      the Midjourney check raises TypeError. */
  lemma AsWrittenNeverNone(info: map<string, string>, loads: Loads)
    ensures CreateExtractor(info, loads, AsWritten) != Returned(None)
    ensures EmProps.IsCompatible(info, loads) == Returned(false) ==>
              CreateExtractor(info, loads, AsWritten) ==
                if Midjourney.HasVersionTag(Midjourney.DescriptionText(info)) then Returned(Some(MidjourneyExtractor))
                else Raised(TypeError)
  {
    Midjourney.AsWrittenNeverFalse(info);
  }

  /** The corrected factory finds no extractor exactly when neither check recognises the
      image; it raises only for a 'prompt' chunk that is JSON but not an object; and wherever
      the code as written returns, the two agree. */
  lemma CorrectedChoice(info: map<string, string>, loads: Loads)
    ensures CreateExtractor(info, loads, Corrected) == Returned(None) <==>
              EmProps.IsCompatible(info, loads) == Returned(false) && !Midjourney.IsCompatibleCorrected(info)
    ensures CreateExtractor(info, loads, Corrected).Raised? ==>
              CreateExtractor(info, loads, Corrected).error == AttributeError
    ensures CreateExtractor(info, loads, AsWritten).Returned? ==>
              CreateExtractor(info, loads, AsWritten) == CreateExtractor(info, loads, Corrected)
  {
    EmProps.IsCompatibleSpec(info, loads);
    Midjourney.AsWrittenAgreesWhenReturning(info);
  }

  /** An image without text chunks: the factory as written raises TypeError, the corrected
      one finds no extractor. */
  lemma NoChunks(loads: Loads)
    ensures CreateExtractor(map[], loads, AsWritten) == Raised(TypeError)
    ensures CreateExtractor(map[], loads, Corrected) == Returned(None)
  {
    Midjourney.NoChunks(map[]);
  }
}

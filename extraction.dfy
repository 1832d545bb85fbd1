/** `extract_metadata(image)`: decode the image's text chunks, let the factory choose an
    extractor, run it, and stamp the record with the name of the model it came from. */
module Extraction {
  import opened Outcomes
  import opened PyJson
  import opened Images
  import opened Record
  import opened Base
  import Factory
  import EmProps
  import Midjourney

  /** What the chosen extractor's `extract_metadata(image)` returns or raises. */
  function RunExtractor(kind: Extractor, image: Image, loads: Loads,
                        parsesAsTime: string -> bool, rev: Revision): Outcome<Option<Metadata>>
  {
    match kind
    case EmPropsExtractor => EmProps.ExtractedResult(image, loads, rev)
    case MidjourneyExtractor => Returned(Some(Midjourney.ExtractedRecord(image, parsesAsTime)))
  }

  /** What `extract_metadata(image)` returns or raises. */
  function ExtractedMetadata(image: Image, loads: Loads, parsesAsTime: string -> bool,
                             rev: Revision): Outcome<Option<Metadata>>
  {
    var kind :- Factory.CreateExtractor(DecodedInfo(image.info), loads, rev);
    if kind.None? then Returned(None)
    else Stamp(kind.value, RunExtractor(kind.value, image, loads, parsesAsTime, rev))
  }

  /** `metadata.source_model = extractor.model_type.name` on what the extractor produced. A
      record is always truthy, so only a missing record falls through to None. */
  function Stamp(kind: Extractor, produced: Outcome<Option<Metadata>>): Outcome<Option<Metadata>> {
    var metadata :- produced;
    if metadata.Some? then Returned(Some(metadata.value.(sourceModel := kind.ModelType().Name())))
    else Returned(None)
  }

  /** `extract_metadata(image)`: the record returned is the extractor's own, with its
      `source_model` overwritten. */
  method ExtractMetadata(image: Image, loads: Loads, parsesAsTime: string -> bool, rev: Revision)
    returns (r: Outcome<Option<AIImageMetadata>>)
    ensures r.Returned? && r.value.Some? ==> fresh(r.value.value)
    ensures Snapshot(r) == ExtractedMetadata(image, loads, parsesAsTime, rev)
  {
    var imageMetadata := DecodeInfo(image.info);
    var extractor := Factory.CreateExtractor(imageMetadata, loads, rev);
    if extractor.Raised? {
      return Raised(extractor.error);
    }
    if extractor.value.None? {
      return Returned(None);
    }
    var kind := extractor.value.value;
    r := RunAndStamp(kind, image, loads, parsesAsTime, rev);
  }

  /** The chosen extractor's `extract_metadata(image)`, and the stamping of what it returns. */
  method RunAndStamp(kind: Extractor, image: Image, loads: Loads, parsesAsTime: string -> bool,
                     rev: Revision) returns (r: Outcome<Option<AIImageMetadata>>)
    ensures r.Returned? && r.value.Some? ==> fresh(r.value.value)
    ensures Snapshot(r) == Stamp(kind, RunExtractor(kind, image, loads, parsesAsTime, rev))
  {
    var metadata: Outcome<Option<AIImageMetadata>>;
    if kind == EmPropsExtractor {
      metadata := EmProps.Extract(image, loads, rev);
    } else {
      var record := Midjourney.Extract(image, parsesAsTime);
      metadata := Returned(Some(record));
    }
    if metadata.Raised? {
      return Raised(metadata.error);
    }
    if metadata.value.None? {
      return Returned(None);
    }
    var record := metadata.value.value;
    record.sourceModel := kind.ModelType().Name();
    return Returned(Some(record));
  }

  /** Every record returned names the extractor that made it: "EMPROPS" exactly when the
      EmProps check recognised the image, "MIDJOURNEY" otherwise. */
  lemma SourceModelNamesExtractor(image: Image, loads: Loads, parsesAsTime: string -> bool,
                                  rev: Revision, m: Metadata)
    requires ExtractedMetadata(image, loads, parsesAsTime, rev) == Returned(Some(m))
    ensures m.sourceModel == "EMPROPS" || m.sourceModel == "MIDJOURNEY"
    ensures m.sourceModel == "EMPROPS" <==> EmProps.IsCompatible(DecodedInfo(image.info), loads) == Returned(true)
  {
    var kind := Factory.CreateExtractor(DecodedInfo(image.info), loads, rev).value.value;
    Factory.ChosenIsCompatible(DecodedInfo(image.info), loads, rev);
    assert m.sourceModel == kind.ModelType().Name();
  }

  /** An image the EmProps check recognises is never handed on to Midjourney: when the EmProps
      extractor finds nothing, the answer is None. A record it does return was completed by
      it, so its author is "EmProps". */
  lemma NoFallback(image: Image, loads: Loads, parsesAsTime: string -> bool, rev: Revision)
    requires EmProps.IsCompatible(DecodedInfo(image.info), loads) == Returned(true)
    ensures EmProps.ExtractedResult(image, loads, rev) == Returned(None) ==>
              ExtractedMetadata(image, loads, parsesAsTime, rev) == Returned(None)
    ensures ExtractedMetadata(image, loads, parsesAsTime, rev).Returned? &&
            ExtractedMetadata(image, loads, parsesAsTime, rev).value.Some? ==>
              ExtractedMetadata(image, loads, parsesAsTime, rev).value.value.author == "EmProps"
  {
    Factory.ChosenIsCompatible(DecodedInfo(image.info), loads, rev);
    EmProps.NoPartialRecord(image, loads, rev);
  }

  /** A Midjourney image always yields a record: the Midjourney extractor's record with
      "MIDJOURNEY" as its source model. */
  lemma MidjourneyAlwaysRecords(image: Image, loads: Loads, parsesAsTime: string -> bool, rev: Revision)
    requires Factory.CreateExtractor(DecodedInfo(image.info), loads, rev) == Returned(Some(MidjourneyExtractor))
    ensures ExtractedMetadata(image, loads, parsesAsTime, rev) ==
              Returned(Some(Midjourney.ExtractedRecord(image, parsesAsTime).(sourceModel := "MIDJOURNEY")))
  {
  }

  /** With the corrected checks, `extract_metadata` returns None exactly when no extractor
      recognises the image or the EmProps extractor finds no prompt data. */
  lemma CorrectedNone(image: Image, loads: Loads, parsesAsTime: string -> bool)
    ensures ExtractedMetadata(image, loads, parsesAsTime, Corrected) == Returned(None) <==>
              Factory.CreateExtractor(DecodedInfo(image.info), loads, Corrected) == Returned(None)
              || (EmProps.IsCompatible(DecodedInfo(image.info), loads) == Returned(true)
                  && EmProps.ExtractedResult(image, loads, Corrected) == Returned(None))
  {
    Factory.ChosenIsCompatible(DecodedInfo(image.info), loads, Corrected);
  }

  /** An image without any text chunk: the code as written raises TypeError from the Midjourney
      check, where the corrected code finds no extractor and returns None. */
  lemma PlainImage(image: Image, loads: Loads, parsesAsTime: string -> bool)
    requires image.info == map[]
    ensures ExtractedMetadata(image, loads, parsesAsTime, AsWritten) == Raised(TypeError)
    ensures ExtractedMetadata(image, loads, parsesAsTime, Corrected) == Returned(None)
  {
    assert DecodedInfo(image.info) == map[];
    Factory.NoChunks(loads);
  }
}

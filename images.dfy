/** The image as the extractors see it: the PIL `info` dictionary of its metadata chunks,
    and its pixel size. */
module Images {
  import opened Outcomes

  /** A value of `image.info`: text, or raw bytes together with their UTF-8 decoding, which
      fails for bytes that are not UTF-8. Non-text values (`dpi`, `gamma`) appear as the text
      `str()` gives them. */
  datatype InfoValue = Text(s: string) | Bytes(utf8: Option<string>)

  datatype Image = Image(info: map<string, InfoValue>, width: int, height: int)

  /** The text kept for an `info` value: the value itself, or its decoding; bytes that do not
      decode are dropped. */
  function Decoded(v: InfoValue): Option<string> {
    match v
    case Text(s) => Some(s)
    case Bytes(d) => d
  }

  /** The `image_metadata` dictionary built from `image.info`. */
  function DecodedInfo(info: map<string, InfoValue>): map<string, string> {
    map k | k in info && Decoded(info[k]).Some? :: Decoded(info[k]).value
  }

  /** The `image_metadata` built from the keys in `done`. */
  function DecodedPart(info: map<string, InfoValue>, done: set<string>): map<string, string> {
    map k | k in info && k in done && Decoded(info[k]).Some? :: Decoded(info[k]).value
  }

  /** The loop over `image.info.items()`: every text value is kept, every bytes value that
      decodes as UTF-8 is kept as its decoding, and the others are skipped. */
  method DecodeInfo(info: map<string, InfoValue>) returns (imageMetadata: map<string, string>)
    ensures imageMetadata == DecodedInfo(info)
  {
    imageMetadata := map[];
    var remaining := info.Keys;
    while remaining != {}
      invariant remaining <= info.Keys
      invariant imageMetadata == DecodedPart(info, info.Keys - remaining)
      decreases |remaining|
    {
      var key :| key in remaining;
      var value := info[key];
      remaining := remaining - {key};
      if value.Bytes? {
        if value.utf8.None? {
          continue;
        }
        value := Text(value.utf8.value);
      }
      imageMetadata := imageMetadata[key := value.s];
    }
    assert info.Keys - remaining == info.Keys;
  }

  /** `d.get(key, default)` on a dictionary of strings. */
  function GetOr(m: map<string, string>, key: string, default: string): string {
    if key in m then m[key] else default
  }
}

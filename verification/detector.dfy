/** `Detector`: the language gate. Language identification itself
    (`langdetect.detect`, seeded once so that it is deterministic) is the
    parameter `detect`. */
module Detector {
  import opened Wrappers

  /** What one call of `langdetect.detect` does: name a language, raise
      `LangDetectException` (no usable features), or raise anything else. */
  datatype Detection = Detected(lang: string) | NoFeatures | Crashed(message: string)

  datatype Config = Config(targetLangs: seq<string>, minChars: int)

  const DefaultTargetLangs: seq<string> := ["fa"]
  const DefaultMinChars: int := 50

  /** `Detector.__init__`: a missing or empty language list falls back to
      `["fa"]`. */
  function NewDetector(targetLangs: Option<seq<string>>, minChars: int): (d: Config)
    ensures d.minChars == minChars
    ensures |d.targetLangs| > 0
    ensures targetLangs.Some? && |targetLangs.value| > 0 ==> d.targetLangs == targetLangs.value
    ensures targetLangs.None? || |targetLangs.value| == 0 ==> d.targetLangs == DefaultTargetLangs
  {
    Config(if targetLangs.Some? && |targetLangs.value| > 0 then targetLangs.value else DefaultTargetLangs,
           minChars)
  }

  /** `Detector.is_valid_language`. A detector failure other than
      `LangDetectException` is not caught here and escapes as `Raised`. */
  function IsValidLanguage(d: Config, text: string, detect: string -> Detection): (r: Try<bool>)
    ensures r == Ok(true) <==>
      && |text| > 0 && |text| >= d.minChars
      && detect(text).Detected? && detect(text).lang in d.targetLangs
    ensures r.Raised? <==> |text| > 0 && |text| >= d.minChars && detect(text).Crashed?
    ensures |text| == 0 || |text| < d.minChars ==> r == Ok(false)
  {
    if |text| == 0 || |text| < d.minChars then Ok(false)
    else match detect(text)
      case Detected(lang) => Ok(lang in d.targetLangs)
      case NoFeatures => Ok(false)
      case Crashed(msg) => Raised(msg)
  }

  /** Short text is rejected whatever the detector would have said. */
  lemma ShortTextRejectedByAnyDetector(d: Config, text: string, detect1: string -> Detection, detect2: string -> Detection)
    requires |text| < d.minChars
    ensures IsValidLanguage(d, text, detect1) == IsValidLanguage(d, text, detect2) == Ok(false)
  {
  }

  /** A `LangDetectException` is a rejection, never an error. */
  lemma NoFeaturesIsRejection(d: Config, text: string, detect: string -> Detection)
    requires detect(text) == NoFeatures
    ensures IsValidLanguage(d, text, detect) == Ok(false)
  {
  }

  /** With the defaults, a ten-character text is rejected even if the
      detector names Persian. */
  lemma TenCharactersRejected(text: string, detect: string -> Detection)
    requires |text| == 10
    requires detect(text) == Detected("fa")
    ensures IsValidLanguage(NewDetector(None, DefaultMinChars), text, detect) == Ok(false)
  {
  }
}

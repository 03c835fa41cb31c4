/**
 The pure half of `OCRExtractor`: what is done with the text Tesseract
 recognises in a post image. Locating Tesseract, opening the image and the
 recognition itself are outside the model; `OcrEngine` stands for them.
 */
module OcrExtractor {
  import opened Options
  import opened Strings
  import opened Dates
  import opened TextParser

  /**
   `pytesseract.image_to_string` on the image at a path: the raw recognised
   text, or None when Tesseract is unavailable, the file is missing, or
   recognition raises.
   */
  type OcrEngine = string -> Option<string>

  /** The end of `extract_text_from_image`: non-empty recognised text with surrounding whitespace removed, otherwise nothing. */
  function RecoveredText(raw: Option<string>): (r: Option<string>)
    ensures r.Some? <==> Truthy(raw)
    ensures r.Some? ==> Stripped(r.value) && IsTrimOf(r.value, raw.value)
  {
    if Truthy(raw) then Some(Strip(raw.value)) else None
  }

  /**
   `extract_show_info_from_image`: the caption extractors applied to the
   recovered text, with no show-classification gate in front of them.
   */
  function ExtractShowInfoFromImage(ocr: OcrEngine, imagePath: string, post: Instant, find: Finder, parse: DateParser): (r: Fields)
    ensures !Truthy(RecoveredText(ocr(imagePath))) ==> r == NoFields
    ensures Truthy(RecoveredText(ocr(imagePath))) ==>
              var text := RecoveredText(ocr(imagePath)).value;
              && r.date == FormatDate(ExtractDate(text, post, find, parse))
              && r.location == ExtractLocation(text, find)
              && r.time == ExtractTime(text, find)
  {
    var text := RecoveredText(ocr(imagePath));
    if !Truthy(text) then NoFields
    else ExtractFields(text.value, post, find, parse)
  }

  /** A date found in an image is a date string in canonical form, never the "Unknown" placeholder. */
  lemma ImageDateReadable(ocr: OcrEngine, imagePath: string, post: Instant, find: Finder, parse: DateParser)
    ensures var d := ExtractShowInfoFromImage(ocr, imagePath, post, find, parse).date;
            d.Some? ==> IsDateString(d.value) && |d.value| > 0 && d.value != "Unknown"
  {
    if Truthy(RecoveredText(ocr(imagePath))) {
      FieldsDateReadable(RecoveredText(ocr(imagePath)).value, post, find, parse);
    }
  }

  /** Image text that is only whitespace yields nothing, like an image without text. */
  lemma BlankImageTextYieldsNothing(ocr: OcrEngine, imagePath: string, post: Instant, find: Finder, parse: DateParser)
    requires ocr(imagePath).Some? && AllSpace(ocr(imagePath).value)
    ensures ExtractShowInfoFromImage(ocr, imagePath, post, find, parse) == NoFields
  {
    StripOfBlank(ocr(imagePath).value);
  }

  /**
   Image text is used even when, taken as a caption, it would not be
   classified as a show: any date it yields is still in the window or the
   20:00 fallback.
   */
  lemma ImageDateIsRecent(ocr: OcrEngine, imagePath: string, post: Instant, find: Finder, parse: DateParser)
    ensures var r := ExtractShowInfoFromImage(ocr, imagePath, post, find, parse);
            r.date.Some? ==>
              exists t: Instant :: t + 8 * SecondsPerDay > post && r.date.value == DateString(DateOf(t))
  {
    var r := ExtractShowInfoFromImage(ocr, imagePath, post, find, parse);
    if r.date.Some? {
      var text := RecoveredText(ocr(imagePath)).value;
      var d := ExtractDate(text, post, find, parse);
      ExtractDateLowerBound(text, post, find, parse);
      assert d.value + 8 * SecondsPerDay > post && r.date.value == DateString(DateOf(d.value));
    }
  }
}

/** Language detection for a question (`is_arabic`). */
module Language {

  /** A code point of the Arabic block, U+0600 to U+06FF inclusive. */
  predicate IsArabicChar(c: char) {
    '\U{0600}' <= c <= '\U{06FF}'
  }

  /** `is_arabic(text)`: some character of `text` lies in the Arabic block. */
  function IsArabic(text: string): (r: bool)
    ensures r <==> exists k :: 0 <= k < |text| && IsArabicChar(text[k])
  {
    if text == [] then false
    else IsArabicChar(text[0]) || IsArabic(text[1..])
  }
}

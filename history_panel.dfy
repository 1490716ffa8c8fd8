/** The history list shortens each stored text for display with
    `truncateText`. */
module HistoryPanel {
  import opened JsString

  /** The default `maxLength` of `truncateText`. */
  const DefaultMaxLength: int := 100

  /** `text.length > maxLength ? text.substring(0, maxLength) + "..." : text`:
      a text no longer than the limit is shown unchanged; a longer one is its
      first `maxLength` characters and an ellipsis, `maxLength + 3` long (for
      a negative limit, the ellipsis alone). */
  function TruncateText(text: string, maxLength: int): (r: string)
    ensures |text| <= maxLength ==> r == text
    ensures |text| > maxLength >= 0 ==> r == text[..maxLength] + "..." && |r| == maxLength + 3
    ensures maxLength < 0 ==> r == "..."
  {
    if |text| > maxLength then Substring(text, 0, maxLength) + "..." else text
  }

  /** The result starts with the first `min(|text|, maxLength)` characters
      of the text (none for a negative limit). */
  lemma TruncateTextPrefix(text: string, maxLength: int)
    ensures IsPrefix(text[..Clamp(maxLength, |text|)], TruncateText(text, maxLength))
  {
    var n := Clamp(maxLength, |text|);
    var r := TruncateText(text, maxLength);
    if |text| > maxLength {
      assert r == text[..n] + "...";
      assert r[..n] == text[..n];
    } else {
      assert n == |text|;
    }
  }

  /** Truncating again changes nothing. */
  lemma TruncateTextIdempotent(text: string, maxLength: int)
    ensures TruncateText(TruncateText(text, maxLength), maxLength) == TruncateText(text, maxLength)
  {
    var r := TruncateText(text, maxLength);
    if |text| > maxLength {
      var n := Clamp(maxLength, |text|);
      assert r == text[..n] + "...";
      assert |r| > maxLength;
      assert Substring(r, 0, maxLength) == text[..n];
    }
  }
}

/**
 * Cropping text for the description column (`_get_ellided_text`,
 * `_get_description_summary`).
 */
module Summary {
  import opened Wrappers
  import opened Strings

  /** `_DESCRIPTION_LENGTH`: the widest description the table shows. */
  const DescriptionLength: int := 80

  const Ellipsis: string := "..."

  /**
   * `_get_ellided_text(text, max)`: text that fits is returned unchanged;
   * otherwise it is cut to `max - 3` characters (a negative bound counting
   * from the end, as Python's slice does) and "..." is appended.
   */
  function EllidedText(text: string, max: int): (r: string)
    ensures |text| <= max ==> r == text
    ensures |text| > max ==> r == PrefixSlice(text, max - 3) + Ellipsis
  {
    if |text| <= max then text else PrefixSlice(text, max - |Ellipsis|) + Ellipsis
  }

  /** For a bound of at least 3 the cropped text is never longer than the bound. */
  lemma EllidedTextBound(text: string, max: int)
    requires max >= 3
    ensures |EllidedText(text, max)| == if |text| <= max then |text| else max
    ensures |EllidedText(text, max)| <= max
    ensures |text| > max ==> EllidedText(text, max) == text[..max - 3] + "..."
  {
  }

  /** Below a bound of 3 the negative slice lets the result outgrow the bound. */
  lemma EllidedTextSmallBound()
    ensures EllidedText("abcdef", 2) == "abcde..."
    ensures |EllidedText("abcdef", 2)| > 2
  {
    assert PrefixSlice("abcdef", -1) == "abcde";
  }

  /** The docstring's example: "some long string" cropped to 7 is "some...". */
  lemma EllidedTextExample()
    ensures EllidedText("some long string", 7) == "some..."
  {
    assert PrefixSlice("some long string", 4) == "some";
  }

  /** Cropping what is already cropped to the same bound changes nothing. */
  lemma EllidedTextIdempotent(text: string, max: int)
    requires max >= 3
    ensures EllidedText(EllidedText(text, max), max) == EllidedText(text, max)
  {
    EllidedTextBound(text, max);
  }

  /**
   * `_get_description_summary`: no summary for a missing or empty
   * description, the description itself when it fits in 80 characters, and
   * otherwise its first 77 characters followed by "...".
   */
  function DescriptionSummary(description: Option<string>): (r: Option<string>)
    ensures r == None <==> description == None || description.value == ""
    ensures r.Some? ==> |r.value| <= DescriptionLength
    ensures r.Some? && |description.value| <= DescriptionLength ==> r.value == description.value
    ensures r.Some? && |description.value| > DescriptionLength ==>
              r.value == description.value[..DescriptionLength - 3] + "..."
  {
    match description
    case None => None
    case Some(d) =>
      if d == "" then None
      else if |d| <= DescriptionLength then Some(d)
      else
        EllidedTextBound(d, DescriptionLength);
        Some(EllidedText(d, DescriptionLength))
  }

  /**
   * The description cell of a row (generate_readme.py, the walrus in
   * `_get_github_table_rows`): the summary is cropped a second time, which
   * never changes it.
   */
  function RowDescription(description: Option<string>): (r: Option<string>)
    ensures r == DescriptionSummary(description)
  {
    var summary := DescriptionSummary(description);
    if summary.Some? && summary.value != "" then
      EllidedTextIdempotent(summary.value, DescriptionLength);
      Some(EllidedText(summary.value, DescriptionLength))
    else summary
  }
}

/**
 * Response extraction (tools/convert.py, _parse_llm_json): the text handed to
 * the JSON decoder. The regex \{[\s\S]*\}$ is searched in the stripped text;
 * its leftmost match starts at the first '{' and runs to a final '}'.
 */
module Response {
  import opened Text

  /** The candidate JSON text recovered from a model response. */
  function ExtractJson(text: string): string
  {
    var t := Strip(text);
    if StartsWith(t, "{") then t
    else if EndsWith(t, "}") && '{' in t then t[FirstIndex(t, '{')..]
    else t
  }

  /** A stripped response that already starts with '{' is passed on unchanged. */
  lemma ExtractKeepsObjectText(text: string)
    requires StartsWith(Strip(text), "{")
    ensures ExtractJson(text) == Strip(text)
  {
  }

  /**
   * With leading noise and a trailing '}', the candidate is the suffix from
   * the first '{': it starts with '{', ends with '}', and everything before
   * it is free of '{'.
   */
  lemma ExtractTrailingObject(text: string)
    requires !StartsWith(Strip(text), "{")
    requires EndsWith(Strip(text), "}") && '{' in Strip(text)
    ensures var t, r := Strip(text), ExtractJson(text);
      && |r| >= 2 && r[0] == '{' && r[|r| - 1] == '}'
      && EndsWith(t, r)
      && '{' !in t[..|t| - |r|]
  {
    var t := Strip(text);
    var i := FirstIndex(t, '{');
    assert t[|t| - 1] == '}';
    assert i < |t| - 1;
    assert t[..|t| - |t[i..]|] == t[..i];
  }

  /** Otherwise the stripped text is passed on unchanged (and the decoder will judge it). */
  lemma ExtractOtherwiseStripped(text: string)
    requires !StartsWith(Strip(text), "{")
    requires !(EndsWith(Strip(text), "}") && '{' in Strip(text))
    ensures ExtractJson(text) == Strip(text)
  {
  }

  /** The candidate never carries surrounding whitespace. */
  lemma ExtractHasNoSurroundingSpace(text: string)
    ensures var r := ExtractJson(text);
      r == [] || (!IsSpace(r[0]) && !IsSpace(r[|r| - 1]))
  {
    var t := Strip(text);
    if !StartsWith(t, "{") && EndsWith(t, "}") && '{' in t {
      ExtractTrailingObject(text);
    }
  }

  /** Extraction is idempotent: feeding the candidate back gives it again. */
  lemma ExtractIdempotent(text: string)
    ensures ExtractJson(ExtractJson(text)) == ExtractJson(text)
  {
    var t := Strip(text);
    var r := ExtractJson(text);
    ExtractHasNoSurroundingSpace(text);
    StripUnspaced(r);
    if StartsWith(t, "{") {
      ExtractKeepsObjectText(r);
    } else if EndsWith(t, "}") && '{' in t {
      ExtractTrailingObject(text);
      assert StartsWith(r, "{");
      ExtractKeepsObjectText(r);
    } else {
      assert r == t;
      ExtractOtherwiseStripped(r);
    }
  }
}

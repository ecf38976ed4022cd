/** The shared value codec of `mlu/tags/common.py`: a list of tag values is stored
    as one string with the values separated by `;`, and such a string is split
    back into its values. The per-format decode rule (one value as is, several
    joined with `;`, none as the empty string) is stated here once, as `Collapse`,
    and shown to agree with the codec. */
module Codec {
  import opened Strings

  const Delimiter: char := ';'

  /** No value contains the delimiter. */
  predicate DelimiterFree(values: seq<string>) {
    forall i | 0 <= i < |values| :: Delimiter !in values[i]
  }

  /** `formatValuesListToAudioTag`: the empty list becomes `""`, any other list
      its values joined with `;` in order. */
  function ValuesToTag(values: seq<string>): (tag: string)
    ensures values == [] ==> tag == ""
    ensures |values| > 0 && DelimiterFree(values) ==> Count(tag, Delimiter) == |values| - 1
  {
    if |values| == 0 then ""
    else
      var tag := Join(values, Delimiter);
      assert DelimiterFree(values) ==> Count(tag, Delimiter) == |values| - 1 by {
        if DelimiterFree(values) {
          SplitOfJoin(values, Delimiter);
        }
      }
      tag
  }

  /** The element conversion `formatAudioTagToValuesList` applies after splitting,
      chosen by its `valuesAs` argument. */
  datatype Coercion = ToInt | ToFloat | ToText

  function CoercionFor(valuesAs: string): Coercion {
    if valuesAs == "int" then ToInt
    else if valuesAs == "float" then ToFloat
    else ToText
  }

  /** The split pieces of a tag string and the conversion still to be applied to each. */
  datatype TagValues = TagValues(parts: seq<string>, coercion: Coercion)

  /** `formatAudioTagToValuesList`: `""` gives no values; any other string gives
      its `;`-separated pieces, one more than it has delimiters, none containing
      the delimiter, which join back to the string. */
  function TagToValues(tag: string, valuesAs: string): (r: TagValues)
    ensures tag == "" ==> r.parts == []
    ensures tag != "" ==> |r.parts| == Count(tag, Delimiter) + 1
    ensures DelimiterFree(r.parts)
    ensures tag != "" ==> ValuesToTag(r.parts) == tag
    ensures r.coercion == ToText <==> valuesAs != "int" && valuesAs != "float"
  {
    if tag == "" then TagValues([], CoercionFor(valuesAs))
    else TagValues(Split(tag, Delimiter), CoercionFor(valuesAs))
  }

  /** Joining then splitting is the identity on delimiter-free lists, except for
      the single empty value, whose join `""` splits into no values at all. */
  lemma ValuesRoundTrip(values: seq<string>, valuesAs: string)
    requires DelimiterFree(values)
    ensures TagToValues(ValuesToTag(values), valuesAs).parts == values <==> values != [""]
  {
    if |values| > 0 {
      JoinEmpty(values, Delimiter);
      if values != [""] {
        SplitOfJoin(values, Delimiter);
      }
    }
  }

  /** Splitting then joining gives back every string. */
  lemma TagRoundTrip(tag: string, valuesAs: string)
    ensures ValuesToTag(TagToValues(tag, valuesAs).parts) == tag
  {
  }

  /** The decode rule every translator applies to a native key's list of values:
      one value is taken as is, several are joined with `;` in native order, none
      gives `""`. It always agrees with `ValuesToTag`. */
  function Collapse(values: seq<string>): (r: string)
    ensures r == ValuesToTag(values)
  {
    if |values| == 1 then values[0]
    else if |values| > 1 then Join(values, Delimiter)
    else ""
  }

  /** A collapsed value splits back into the native values when none of them
      contains `;` and the list is neither empty nor the single empty value. */
  lemma CollapseSplitsBack(values: seq<string>)
    requires DelimiterFree(values)
    requires values != [] && values != [""]
    ensures TagToValues(Collapse(values), "").parts == values
  {
    ValuesRoundTrip(values, "");
  }
}

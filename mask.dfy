/** `mask(text, format_patterns)`: pick the format whose placeholder count
    best fits the text, then overlay the text onto it. */
module UniversalMask {
  import opened Bytes
  import opened Selector
  import opened Applier

  /** What `mask` returns: nothing for an empty text, otherwise the selected
      format filled with the text. */
  function Masked(text: seq<byte>, patterns: seq<byte>): seq<byte>
  {
    if text == [] then [] else Fill(Select(|text|, patterns), text)
  }

  /** Whether `mask` emits its warning: the text is non-empty and longer than
      the selected format holds placeholders. */
  predicate Warns(text: seq<byte>, patterns: seq<byte>) {
    text != [] && |text| > XCount(Select(|text|, patterns))
  }

  /** The masking function. The warning the source writes to standard error
      is returned as `warned` instead; the returned bytes are the code points
      of the characters of the returned string. */
  method Mask(text: seq<byte>, patterns: seq<byte>) returns (result: seq<byte>, warned: bool)
    ensures text == [] ==> result == [] && !warned
    ensures result == Masked(text, patterns)
    ensures warned == Warns(text, patterns)
  {
    if |text| == 0 {
      return [], false;
    }
    var best, bestXCount := SelectFormat(|text|, patterns);
    warned := |text| > bestXCount;
    result := Apply(best, text);
  }

  /** The output is one of the trimmed pieces of the format argument, filled
      with the text; the empty format is used exactly when every piece trims
      to nothing. */
  lemma MaskedUsesCandidate(text: seq<byte>, patterns: seq<byte>)
    requires text != []
    ensures var f := Select(|text|, patterns);
      && Masked(text, patterns) == Fill(f, text)
      && (f != [] ==> f in Candidates(patterns))
      && (f == [] <==> forall k :: 0 <= k < |Candidates(patterns)| ==> Candidates(patterns)[k] == [])
  {
    ChooseSpec(|text|, Candidates(patterns));
  }

  /** A single pattern whose trimmed form has no placeholders comes back
      trimmed and otherwise unchanged for any non-empty text, with the
      warning raised. */
  lemma MaskedLiteralPattern(text: seq<byte>, pattern: seq<byte>)
    requires text != []
    requires SEPARATOR !in pattern
    requires XCount(Trim(pattern)) == 0
    ensures Masked(text, pattern) == Trim(pattern)
    ensures Warns(text, pattern)
  {
    SelectSingle(|text|, pattern);
    FillLiteral(Trim(pattern), text);
  }
}

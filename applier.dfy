/** The mask applier of `mask`: the walk over the chosen format that copies
    literal bytes and fills placeholders from the text, stopping at the first
    placeholder the text can no longer fill. */
module Applier {
  import opened Bytes

  function Min(a: int, b: int): int {
    if a <= b then a else b
  }

  /** The filled format: literals copied, each placeholder replaced by the
      next text byte, everything from the first unfillable placeholder on
      dropped. */
  function Fill(format: seq<byte>, text: seq<byte>): (out: seq<byte>)
    ensures |out| <= |format|
  {
    if format == [] then []
    else if format[0] == PLACEHOLDER then
      if text == [] then [] else [text[0]] + Fill(format[1..], text[1..])
    else [format[0]] + Fill(format[1..], text)
  }

  /** One more step of the walk, from format position `i` and text
      position `t`. */
  lemma FillNext(format: seq<byte>, text: seq<byte>, i: nat, t: nat)
    requires i < |format| && t <= |text|
    ensures Fill(format[i..], text[t..]) ==
      if format[i] != PLACEHOLDER then [format[i]] + Fill(format[i + 1..], text[t..])
      else if t < |text| then [text[t]] + Fill(format[i + 1..], text[t + 1..])
      else []
  {
    assert format[i..][0] == format[i] && format[i..][1..] == format[i + 1..];
    if t < |text| {
      assert text[t..][0] == text[t] && text[t..][1..] == text[t + 1..];
    }
  }

  /** The bytes of `out` that stand where `format` has placeholders, in
      order: what a reader of the masked output recovers as the input. */
  function Extract(format: seq<byte>, out: seq<byte>): seq<byte>
  {
    if format == [] || out == [] then []
    else (if format[0] == PLACEHOLDER then [out[0]] else []) + Extract(format[1..], out[1..])
  }

  /** Counting the placeholders of a prefix one byte at a time. */
  lemma XCountPrefix(s: seq<byte>, i: nat)
    requires 0 < i <= |s|
    ensures XCount(s[..i]) == (if s[0] == PLACEHOLDER then 1 else 0) + XCount(s[1..][..i - 1])
  {
    assert s[..i] == [s[0]] + s[1..][..i - 1];
  }

  /** Every output position either copies the format's literal or holds the
      text byte whose index is the number of placeholders before it. */
  lemma {:induction false} FillAt(format: seq<byte>, text: seq<byte>, i: nat)
    requires i < |Fill(format, text)|
    ensures format[i] != PLACEHOLDER ==> Fill(format, text)[i] == format[i]
    ensures format[i] == PLACEHOLDER ==>
      XCount(format[..i]) < |text| && Fill(format, text)[i] == text[XCount(format[..i])]
  {
    if i > 0 {
      XCountPrefix(format, i);
      if format[0] == PLACEHOLDER {
        FillAt(format[1..], text[1..], i - 1);
      } else {
        FillAt(format[1..], text, i - 1);
      }
    }
  }

  /** The output is the whole format when the text can fill every
      placeholder; otherwise it is cut just before the placeholder that would
      take text byte number `|text| + 1`, with no trailing literals. */
  lemma {:induction false} FillLength(format: seq<byte>, text: seq<byte>)
    ensures |text| >= XCount(format) ==> |Fill(format, text)| == |format|
    ensures |text| < XCount(format) ==>
      var n := |Fill(format, text)|;
      n < |format| && format[n] == PLACEHOLDER && XCount(format[..n]) == |text|
  {
    if format != [] {
      var out := Fill(format, text);
      if format[0] == PLACEHOLDER {
        if text != [] {
          FillLength(format[1..], text[1..]);
          if |text| < XCount(format) {
            XCountPrefix(format, |out|);
          }
        }
      } else {
        FillLength(format[1..], text);
        if |text| < XCount(format) {
          XCountPrefix(format, |out|);
        }
      }
    }
  }

  /** The text bytes emitted are exactly the first
      `min(|text|, placeholders)` of them, in order. */
  lemma {:induction false} ExtractFill(format: seq<byte>, text: seq<byte>)
    ensures Extract(format, Fill(format, text)) == text[..Min(|text|, XCount(format))]
  {
    if format != [] {
      var out := Fill(format, text);
      if format[0] == PLACEHOLDER {
        if text != [] {
          ExtractFill(format[1..], text[1..]);
          assert out[1..] == Fill(format[1..], text[1..]);
          assert text[..Min(|text|, XCount(format))] == [text[0]] + text[1..][..Min(|text| - 1, XCount(format[1..]))];
        }
      } else {
        ExtractFill(format[1..], text);
        assert out[1..] == Fill(format[1..], text);
      }
    }
  }

  /** The walk over a format split in two: the first part consumes as many
      text bytes as it has placeholders, and the second part goes on from
      there. */
  lemma {:induction false} FillAppend(a: seq<byte>, b: seq<byte>, text: seq<byte>)
    requires XCount(a) <= |text|
    ensures Fill(a + b, text) == Fill(a, text) + Fill(b, text[XCount(a)..])
  {
    if a == [] {
      assert a + b == b && text[0..] == text;
    } else {
      assert (a + b)[0] == a[0] && (a + b)[1..] == a[1..] + b;
      if a[0] == PLACEHOLDER {
        FillAppend(a[1..], b, text[1..]);
        assert text[1..][XCount(a[1..])..] == text[XCount(a)..];
      } else {
        FillAppend(a[1..], b, text);
      }
    }
  }

  /** A format without placeholders is copied whole, whatever the text. */
  lemma {:induction false} FillLiteral(format: seq<byte>, text: seq<byte>)
    requires XCount(format) == 0
    ensures Fill(format, text) == format
  {
    if format != [] {
      assert format[0] != PLACEHOLDER;
      FillLiteral(format[1..], text);
      assert format == [format[0]] + format[1..];
    }
  }

  /** The walk as the partial-format test expects it: once the text is used
      up, nothing more is emitted if a placeholder is still to come, so the
      output of a partial fit ends on its last filled placeholder. */
  function FillUntilExhausted(format: seq<byte>, text: seq<byte>): (out: seq<byte>)
    ensures |out| <= |format|
  {
    if format == [] then []
    else if format[0] == PLACEHOLDER then
      if text == [] then [] else [text[0]] + FillUntilExhausted(format[1..], text[1..])
    else if text == [] && XCount(format) > 0 then []
    else [format[0]] + FillUntilExhausted(format[1..], text)
  }

  /** The corrected walk agrees with `Fill` when the text fills every
      placeholder; on a partial fit it is the part of `Fill`'s output up to
      and including the last filled placeholder, and empty only for an empty
      text. */
  lemma {:induction false} FillUntilExhaustedSpec(format: seq<byte>, text: seq<byte>)
    ensures |text| >= XCount(format) ==> FillUntilExhausted(format, text) == Fill(format, text)
    ensures |text| < XCount(format) ==>
      var out := FillUntilExhausted(format, text);
      && |out| <= |Fill(format, text)|
      && out == Fill(format, text)[..|out|]
      && XCount(format[..|out|]) == |text|
      && (out == [] <==> text == [])
      && (out != [] ==> format[|out| - 1] == PLACEHOLDER)
  {
    if format != [] {
      var out := FillUntilExhausted(format, text);
      var full := Fill(format, text);
      if format[0] == PLACEHOLDER {
        if text != [] {
          FillUntilExhaustedSpec(format[1..], text[1..]);
          if |text| < XCount(format) {
            var rest := FillUntilExhausted(format[1..], text[1..]);
            assert out == [text[0]] + rest;
            assert full == [text[0]] + Fill(format[1..], text[1..]);
            assert full[..|out|] == [text[0]] + Fill(format[1..], text[1..])[..|rest|];
            XCountPrefix(format, |out|);
          }
        }
      } else if text == [] && XCount(format) > 0 {
      } else {
        FillUntilExhaustedSpec(format[1..], text);
        if |text| < XCount(format) {
          var rest := FillUntilExhausted(format[1..], text);
          assert out == [format[0]] + rest;
          assert full == [format[0]] + Fill(format[1..], text);
          assert full[..|out|] == [format[0]] + Fill(format[1..], text)[..|rest|];
          XCountPrefix(format, |out|);
        }
      }
    }
  }

  /** Text beyond what the placeholders take is never looked at. */
  lemma {:induction false} FillExtraText(format: seq<byte>, text: seq<byte>, extra: seq<byte>)
    requires XCount(format) <= |text|
    ensures Fill(format, text + extra) == Fill(format, text)
  {
    if format != [] {
      if format[0] == PLACEHOLDER {
        assert (text + extra)[0] == text[0] && (text + extra)[1..] == text[1..] + extra;
        FillExtraText(format[1..], text[1..], extra);
      } else {
        FillExtraText(format[1..], text, extra);
      }
    }
  }

  /** A format in two parts filled by a text in two parts, the first text
      part exactly as long as the first format part has placeholders, is the
      two fills side by side. */
  lemma FillParts(a: seq<byte>, b: seq<byte>, ta: seq<byte>, tb: seq<byte>)
    requires XCount(a) == |ta|
    ensures Fill(a + b, ta + tb) == Fill(a, ta) + Fill(b, tb)
  {
    FillAppend(a, b, ta + tb);
    FillExtraText(a, ta, tb);
    assert (ta + tb)[XCount(a)..] == tb;
  }

  /** Moving one byte from the rest of the walk onto the output so far. */
  lemma Shift(done: seq<byte>, b: byte, rest: seq<byte>)
    ensures (done + [b]) + rest == done + ([b] + rest)
  {
  }

  /** The applier loop of `mask`: walk the format byte by byte with a cursor
      into the text, stopping at the first placeholder the text cannot fill. */
  method Apply(format: seq<byte>, text: seq<byte>) returns (result: seq<byte>)
    ensures result == Fill(format, text)
  {
    result := [];
    var textIndex := 0;
    assert format[0..] == format && text[0..] == text;
    for i := 0 to |format|
      invariant textIndex <= |text|
      invariant result + Fill(format[i..], text[textIndex..]) == Fill(format, text)
    {
      var b := format[i];
      FillNext(format, text, i, textIndex);
      if b == PLACEHOLDER {
        if textIndex < |text| {
          Shift(result, text[textIndex], Fill(format[i + 1..], text[textIndex + 1..]));
          result := result + [text[textIndex]];
          textIndex := textIndex + 1;
        } else {
          break;
        }
      } else {
        Shift(result, b, Fill(format[i + 1..], text[textIndex..]));
        result := result + [b];
      }
    }
  }
}

/** The format selector of `mask`: the greedy, order-sensitive pass over the
    trimmed `'|'`-pieces of the format argument. */
module Selector {
  import opened Bytes

  /** The trimmed `'|'`-pieces of the format argument, in split order. */
  function Candidates(patterns: seq<byte>): seq<seq<byte>>
  {
    var pieces := Split(patterns);
    seq(|pieces|, k requires 0 <= k < |pieces| => Trim(pieces[k]))
  }

  /** The candidates of a format argument built from pieces are the trimmed
      pieces. */
  lemma CandidatesOfJoin(pieces: seq<seq<byte>>)
    requires |pieces| >= 1
    requires forall k :: 0 <= k < |pieces| ==> SEPARATOR !in pieces[k]
    ensures |Candidates(Join(pieces))| == |pieces|
    ensures forall k :: 0 <= k < |pieces| ==> Candidates(Join(pieces))[k] == Trim(pieces[k])
  {
    SplitJoin(pieces);
  }

  /** The replacement rule of one pass of the selection loop: the best so far
      is still empty, or the text is longer than the best can hold and the
      candidate holds strictly more. */
  predicate Replaces(textLen: nat, best: seq<byte>, candidate: seq<byte>) {
    best == [] || (textLen > XCount(best) && XCount(candidate) > XCount(best))
  }

  /** The best format after the selection loop has seen the candidates `cs`,
      in order, starting from the empty best. */
  function Choose(textLen: nat, cs: seq<seq<byte>>): seq<byte>
  {
    if cs == [] then []
    else
      var best := Choose(textLen, cs[..|cs| - 1]);
      var candidate := cs[|cs| - 1];
      if Replaces(textLen, best, candidate) then candidate else best
  }

  /** The format the selector picks for a text of `textLen` bytes. */
  function Select(textLen: nat, patterns: seq<byte>): seq<byte>
  {
    Choose(textLen, Candidates(patterns))
  }

  /** One more pass of the loop over a prefix of the candidates. */
  lemma ChooseNext(textLen: nat, cs: seq<seq<byte>>, i: nat)
    requires i < |cs|
    ensures var best := Choose(textLen, cs[..i]);
      Choose(textLen, cs[..i + 1]) == if Replaces(textLen, best, cs[i]) then cs[i] else best
  {
    assert cs[..i + 1][..i] == cs[..i];
  }

  /** A format argument without `'|'` is selected as it is, once trimmed. */
  lemma SelectSingle(textLen: nat, pattern: seq<byte>)
    requires SEPARATOR !in pattern
    ensures Select(textLen, pattern) == Trim(pattern)
  {
    SplitWithoutSeparator(pattern);
    var cs := Candidates(pattern);
    assert |cs| == 1 && cs[0] == Trim(pattern);
    ChooseNext(textLen, cs, 0);
    assert cs[..0] == [] && cs[..1] == cs;
  }

  /** A declarative description of the selection: candidate `k` is non-empty;
      every earlier non-empty candidate holds strictly fewer placeholders than
      it (so a tie keeps the earlier one) and fewer than the text has bytes
      (the selector was still looking); no later candidate both finds the
      text still too long for `k` and holds more placeholders than `k`. */
  ghost predicate Chosen(textLen: nat, cs: seq<seq<byte>>, k: int) {
    && 0 <= k < |cs|
    && cs[k] != []
    && (forall j :: 0 <= j < k && cs[j] != [] ==> XCount(cs[j]) < XCount(cs[k]) && XCount(cs[j]) < textLen)
    && (forall j :: k < j < |cs| ==> textLen <= XCount(cs[k]) || XCount(cs[j]) <= XCount(cs[k]))
  }

  /** A first non-empty candidate after only empty ones is described. */
  lemma ChosenFirst(textLen: nat, init: seq<seq<byte>>, c: seq<byte>)
    requires forall j :: 0 <= j < |init| ==> init[j] == []
    requires c != []
    ensures Chosen(textLen, init + [c], |init|)
  {
    var cs := init + [c];
    assert forall j :: 0 <= j < |init| ==> cs[j] == init[j];
  }

  /** A candidate that replaces a described best is described. */
  lemma ChosenReplaced(textLen: nat, init: seq<seq<byte>>, k: int, c: seq<byte>)
    requires Chosen(textLen, init, k)
    requires textLen > XCount(init[k]) && XCount(c) > XCount(init[k])
    ensures Chosen(textLen, init + [c], |init|)
  {
    var cs := init + [c];
    assert forall j :: 0 <= j < |init| ==> cs[j] == init[j];
    assert forall j :: 0 <= j < |init| && cs[j] != [] ==> XCount(cs[j]) <= XCount(init[k]);
  }

  /** A described best that a candidate fails to replace stays described. */
  lemma ChosenKept(textLen: nat, init: seq<seq<byte>>, k: int, c: seq<byte>)
    requires Chosen(textLen, init, k)
    requires !Replaces(textLen, init[k], c)
    ensures Chosen(textLen, init + [c], k)
  {
    var cs := init + [c];
    assert forall j :: 0 <= j < |init| ==> cs[j] == init[j];
  }

  /** The loop ends on the empty format exactly when every candidate is
      empty; otherwise it ends on a candidate that `Chosen` describes. */
  lemma {:induction false} ChooseSpec(textLen: nat, cs: seq<seq<byte>>)
    ensures Choose(textLen, cs) == [] <==> forall j :: 0 <= j < |cs| ==> cs[j] == []
    ensures Choose(textLen, cs) != [] ==> exists k :: Chosen(textLen, cs, k) && Choose(textLen, cs) == cs[k]
  {
    if cs != [] {
      var init := cs[..|cs| - 1];
      var c := cs[|cs| - 1];
      assert cs == init + [c];
      ChooseSpec(textLen, init);
      var best := Choose(textLen, init);
      if best == [] {
        if c != [] {
          ChosenFirst(textLen, init, c);
        }
      } else {
        var k :| Chosen(textLen, init, k) && best == init[k];
        if Replaces(textLen, best, c) {
          ChosenReplaced(textLen, init, k, c);
        } else {
          ChosenKept(textLen, init, k, c);
        }
      }
    }
  }

  /** At most one candidate fits the description. */
  lemma ChosenUnique(textLen: nat, cs: seq<seq<byte>>, k1: int, k2: int)
    requires Chosen(textLen, cs, k1) && Chosen(textLen, cs, k2)
    ensures k1 == k2
  {
  }

  /** The description determines the loop's result. */
  lemma ChosenIsChoice(textLen: nat, cs: seq<seq<byte>>, k: int)
    requires Chosen(textLen, cs, k)
    ensures Choose(textLen, cs) == cs[k]
  {
    ChooseSpec(textLen, cs);
    var k' :| Chosen(textLen, cs, k') && Choose(textLen, cs) == cs[k'];
    ChosenUnique(textLen, cs, k, k');
  }

  /** The placeholder count of the best format never decreases as the loop
      advances. */
  lemma {:induction false} ChooseMonotone(textLen: nat, cs: seq<seq<byte>>, i: nat, j: nat)
    requires i <= j <= |cs|
    ensures XCount(Choose(textLen, cs[..i])) <= XCount(Choose(textLen, cs[..j]))
  {
    if i < j {
      ChooseMonotone(textLen, cs, i, j - 1);
      assert cs[..j][..j - 1] == cs[..j - 1];
    }
  }

  /** A candidate that only ties the best so far (or holds fewer
      placeholders) leaves the earlier best in place. */
  lemma TieKeepsBest(textLen: nat, cs: seq<seq<byte>>, i: nat)
    requires i < |cs|
    requires Choose(textLen, cs[..i]) != []
    requires XCount(cs[i]) <= XCount(Choose(textLen, cs[..i]))
    ensures Choose(textLen, cs[..i + 1]) == Choose(textLen, cs[..i])
  {
    ChooseNext(textLen, cs, i);
  }

  /** Once the best so far is non-empty and holds at least as many
      placeholders as the text has bytes, no later candidate replaces it. */
  lemma {:induction false} FitLocks(textLen: nat, cs: seq<seq<byte>>, i: nat, j: nat)
    requires i <= j <= |cs|
    requires Choose(textLen, cs[..i]) != []
    requires textLen <= XCount(Choose(textLen, cs[..i]))
    ensures Choose(textLen, cs[..j]) == Choose(textLen, cs[..i])
  {
    if i < j {
      FitLocks(textLen, cs, i, j - 1);
      ChooseNext(textLen, cs, j - 1);
    }
  }

  /** Once the first non-empty candidate holds at least as many placeholders
      as the text has bytes, it is the result, whatever follows it. */
  lemma FirstFitLocks(textLen: nat, cs: seq<seq<byte>>, f: nat)
    requires f < |cs| && cs[f] != []
    requires forall j :: 0 <= j < f ==> cs[j] == []
    requires textLen <= XCount(cs[f])
    ensures Choose(textLen, cs) == cs[f]
  {
    assert Chosen(textLen, cs, f);
    ChosenIsChoice(textLen, cs, f);
  }

  /** The selection loop of `mask`: a pass over the trimmed pieces that keeps
      a running best format and its placeholder count. */
  method SelectFormat(textLen: nat, patterns: seq<byte>) returns (best: seq<byte>, bestXCount: nat)
    ensures best == Select(textLen, patterns)
    ensures bestXCount == XCount(best)
  {
    best, bestXCount := [], 0;
    var pieces := Split(patterns);
    ghost var cs := Candidates(patterns);
    for i := 0 to |pieces|
      invariant best == Choose(textLen, cs[..i])
      invariant bestXCount == XCount(best)
    {
      var format := Trim(pieces[i]);
      var xCount := XCount(format);
      ChooseNext(textLen, cs, i);
      if best == [] || (textLen > bestXCount && xCount > bestXCount) {
        best, bestXCount := format, xCount;
      }
    }
    assert cs[..|pieces|] == cs;
  }
}

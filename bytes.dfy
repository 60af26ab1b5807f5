/** Byte-level view of the strings `mask` works on: the UTF-8 bytes that
    `str::as_bytes` exposes, the two significant byte values, the `'X'`
    count, splitting on `'|'` and trimming whitespace. */
module Bytes {

  /** One byte of a UTF-8 encoded string, written as the character with the
      same code point (what `b as char` gives for a byte `b`). */
  type byte = c: char | c as int < 256 witness 'X'

  /** The placeholder marker `'X'`. */
  const PLACEHOLDER: byte := 'X'

  /** The separator between format patterns, `'|'`. */
  const SEPARATOR: byte := '|'

  /** ASCII whitespace: space, tab, line feed, vertical tab, form feed,
      carriage return. */
  predicate IsWhitespace(b: byte) {
    b == ' ' || '\t' <= b <= '\r'
  }

  /** The number of placeholder bytes in `s`. */
  function XCount(s: seq<byte>): (n: nat)
    ensures n <= |s|
  {
    if s == [] then 0
    else (if s[0] == PLACEHOLDER then 1 else 0) + XCount(s[1..])
  }

  /** The count is the multiplicity of the placeholder in `s`. */
  lemma {:induction false} XCountIsMultiplicity(s: seq<byte>)
    ensures XCount(s) == multiset(s)[PLACEHOLDER]
  {
    if s != [] {
      XCountIsMultiplicity(s[1..]);
      assert s == [s[0]] + s[1..];
    }
  }

  /** Counting over two parts adds up. */
  lemma {:induction false} XCountAppend(a: seq<byte>, b: seq<byte>)
    ensures XCount(a + b) == XCount(a) + XCount(b)
  {
    if a == [] {
      assert a + b == b;
    } else {
      XCountAppend(a[1..], b);
      assert (a + b)[0] == a[0] && (a + b)[1..] == a[1..] + b;
    }
  }

  /** `s` split on every separator byte, as `str::split('|')` yields it. */
  function Split(s: seq<byte>): (pieces: seq<seq<byte>>)
    ensures |pieces| >= 1
  {
    if s == [] then [[]]
    else
      var rest := Split(s[1..]);
      if s[0] == SEPARATOR then [[]] + rest
      else [[s[0]] + rest[0]] + rest[1..]
  }

  /** No piece holds a separator. */
  lemma {:induction false} SplitPieces(s: seq<byte>)
    ensures forall k :: 0 <= k < |Split(s)| ==> SEPARATOR !in Split(s)[k]
  {
    if s != [] {
      SplitPieces(s[1..]);
    }
  }

  /** There is one piece more than there are separators. */
  lemma {:induction false} SplitCount(s: seq<byte>)
    ensures |Split(s)| == multiset(s)[SEPARATOR] + 1
  {
    if s != [] {
      SplitCount(s[1..]);
      assert s == [s[0]] + s[1..];
    }
  }

  /** The inverse of `Split`: the pieces glued back with separators. */
  function Join(pieces: seq<seq<byte>>): seq<byte>
    requires |pieces| >= 1
  {
    if |pieces| == 1 then pieces[0]
    else pieces[0] + [SEPARATOR] + Join(pieces[1..])
  }

  /** Gluing a byte onto the first piece glues it onto the whole. */
  lemma JoinPrepend(b: byte, pieces: seq<seq<byte>>)
    requires |pieces| >= 1
    ensures Join([[b] + pieces[0]] + pieces[1..]) == [b] + Join(pieces)
  {
    var glued := [[b] + pieces[0]] + pieces[1..];
    if |pieces| > 1 {
      assert glued[1..] == pieces[1..];
    }
  }

  lemma {:induction false} JoinSplit(s: seq<byte>)
    ensures Join(Split(s)) == s
  {
    if s != [] {
      JoinSplit(s[1..]);
      var rest := Split(s[1..]);
      if s[0] == SEPARATOR {
        assert ([[]] + rest)[1..] == rest;
      } else {
        JoinPrepend(s[0], rest);
      }
      assert s == [s[0]] + s[1..];
    }
  }

  lemma {:induction false} SplitWithoutSeparator(p: seq<byte>)
    requires SEPARATOR !in p
    ensures Split(p) == [p]
  {
    if p != [] {
      SplitWithoutSeparator(p[1..]);
      assert p == [p[0]] + p[1..];
    }
  }

  lemma {:induction false} SplitAfterPiece(p: seq<byte>, t: seq<byte>)
    requires SEPARATOR !in p
    ensures Split(p + [SEPARATOR] + t) == [p] + Split(t)
  {
    var s := p + [SEPARATOR] + t;
    if p == [] {
      assert s == [SEPARATOR] + t;
      assert s[1..] == t;
    } else {
      SplitAfterPiece(p[1..], t);
      assert s[0] == p[0];
      assert s[1..] == p[1..] + [SEPARATOR] + t;
      assert p == [p[0]] + p[1..];
    }
  }

  lemma {:induction false} SplitJoin(pieces: seq<seq<byte>>)
    requires |pieces| >= 1
    requires forall k :: 0 <= k < |pieces| ==> SEPARATOR !in pieces[k]
    ensures Split(Join(pieces)) == pieces
  {
    if |pieces| == 1 {
      SplitWithoutSeparator(pieces[0]);
    } else {
      SplitJoin(pieces[1..]);
      SplitAfterPiece(pieces[0], Join(pieces[1..]));
      assert pieces == [pieces[0]] + pieces[1..];
    }
  }

  /** `s` without its leading whitespace. */
  function TrimStart(s: seq<byte>): seq<byte>
  {
    if s != [] && IsWhitespace(s[0]) then TrimStart(s[1..]) else s
  }

  /** `s` without its trailing whitespace. */
  function TrimEnd(s: seq<byte>): seq<byte>
  {
    if s != [] && IsWhitespace(s[|s| - 1]) then TrimEnd(s[..|s| - 1]) else s
  }

  /** `s` without leading and trailing whitespace, as `str::trim`. */
  function Trim(s: seq<byte>): seq<byte>
  {
    TrimEnd(TrimStart(s))
  }

  /** `TrimStart` drops exactly the leading whitespace: what remains is a
      suffix that does not start with whitespace, and only whitespace was
      dropped. */
  lemma {:induction false} TrimStartSpec(s: seq<byte>)
    ensures var r := TrimStart(s);
      |r| <= |s| && r == s[|s| - |r|..]
      && (forall k :: 0 <= k < |s| - |r| ==> IsWhitespace(s[k]))
      && (r != [] ==> !IsWhitespace(r[0]))
  {
    if s != [] && IsWhitespace(s[0]) {
      TrimStartSpec(s[1..]);
    }
  }

  /** `TrimEnd` drops exactly the trailing whitespace. */
  lemma {:induction false} TrimEndSpec(s: seq<byte>)
    ensures var r := TrimEnd(s);
      |r| <= |s| && r == s[..|r|]
      && (forall k :: |r| <= k < |s| ==> IsWhitespace(s[k]))
      && (r != [] ==> !IsWhitespace(r[|r| - 1]))
  {
    if s != [] && IsWhitespace(s[|s| - 1]) {
      TrimEndSpec(s[..|s| - 1]);
    }
  }

  /** `r` is the slice of `s` that starts at `i`, and only whitespace lies
      outside it. */
  ghost predicate TrimmedAt(s: seq<byte>, i: int, r: seq<byte>) {
    0 <= i <= |s| - |r| && r == s[i..i + |r|]
    && (forall k :: 0 <= k < i ==> IsWhitespace(s[k]))
    && (forall k :: i + |r| <= k < |s| ==> IsWhitespace(s[k]))
  }

  /** `Trim` keeps a middle slice of `s` that neither starts nor ends with
      whitespace and outside which there is only whitespace. */
  lemma TrimSpec(s: seq<byte>)
    ensures exists i :: TrimmedAt(s, i, Trim(s))
    ensures Trim(s) != [] ==> !IsWhitespace(Trim(s)[0]) && !IsWhitespace(Trim(s)[|Trim(s)| - 1])
  {
    var t := TrimStart(s);
    var r := TrimEnd(t);
    TrimStartSpec(s);
    TrimEndSpec(t);
    var i := |s| - |t|;
    assert r == Trim(s);
    assert forall k :: i + |r| <= k < |s| ==> s[k] == t[k - i];
    assert TrimmedAt(s, i, r);
  }

  /** Leading whitespace in front of a slice that does not start with
      whitespace is dropped, and nothing else. */
  lemma {:induction false} TrimStartPadding(pre: seq<byte>, r: seq<byte>)
    requires forall k :: 0 <= k < |pre| ==> IsWhitespace(pre[k])
    requires r != [] && !IsWhitespace(r[0])
    ensures TrimStart(pre + r) == r
  {
    if pre == [] {
      assert pre + r == r;
    } else {
      assert (pre + r)[1..] == pre[1..] + r;
      TrimStartPadding(pre[1..], r);
    }
  }

  /** Trailing whitespace behind a slice that does not end with whitespace is
      dropped, and nothing else. */
  lemma {:induction false} TrimEndPadding(r: seq<byte>, post: seq<byte>)
    requires forall k :: 0 <= k < |post| ==> IsWhitespace(post[k])
    requires r != [] && !IsWhitespace(r[|r| - 1])
    ensures TrimEnd(r + post) == r
  {
    if post == [] {
      assert r + post == r;
    } else {
      assert (r + post)[..|r + post| - 1] == r + post[..|post| - 1];
      TrimEndPadding(r, post[..|post| - 1]);
    }
  }

  /** A slice framed by whitespace on both sides trims to the slice, provided
      it neither starts nor ends with whitespace itself. */
  lemma TrimPadding(pre: seq<byte>, s: seq<byte>, post: seq<byte>)
    requires forall k :: 0 <= k < |pre| ==> IsWhitespace(pre[k])
    requires forall k :: 0 <= k < |post| ==> IsWhitespace(post[k])
    requires s != [] && !IsWhitespace(s[0]) && !IsWhitespace(s[|s| - 1])
    ensures Trim(pre + s + post) == s
  {
    assert pre + s + post == pre + (s + post);
    TrimStartPadding(pre, s + post);
    TrimEndPadding(s, post);
  }

  /** A slice that neither starts nor ends with whitespace trims to itself. */
  lemma TrimUnchanged(s: seq<byte>)
    requires s != [] ==> !IsWhitespace(s[0]) && !IsWhitespace(s[|s| - 1])
    ensures Trim(s) == s
  {
  }
}

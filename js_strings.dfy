/**
 * The JavaScript string built-ins the CSV loader relies on:
 * `String.prototype.trim` and `String.prototype.split` with a one-character
 * separator. `Join` (one-character separator) is the inverse of `split`,
 * used to state the round-trip properties; the loader itself calls `join`
 * only to build an error message, which is not modelled.
 */
module JsStrings {

  /** The code points `trim` removes: ECMAScript WhiteSpace and LineTerminator. */
  predicate IsWhitespace(c: char) {
    var n := c as int;
    || 0x09 <= n <= 0x0D || n == 0x20 || n == 0xA0 || n == 0x1680
    || 0x2000 <= n <= 0x200A || n == 0x2028 || n == 0x2029 || n == 0x202F
    || n == 0x205F || n == 0x3000 || n == 0xFEFF
  }

  /** Drops the leading whitespace. */
  function TrimStart(s: string): string {
    if s != [] && IsWhitespace(s[0]) then TrimStart(s[1..]) else s
  }

  /** Drops the trailing whitespace. */
  function TrimEnd(s: string): string {
    if s != [] && IsWhitespace(s[|s| - 1]) then TrimEnd(s[..|s| - 1]) else s
  }

  /** `String.prototype.trim`. */
  function Trim(s: string): string {
    TrimEnd(TrimStart(s))
  }

  /** `TrimStart` keeps the suffix that starts at the first non-whitespace character. */
  lemma {:induction false} TrimStartSpec(s: string)
    ensures var r := TrimStart(s);
            && |r| <= |s| && r == s[|s| - |r|..]
            && (forall k :: 0 <= k < |s| - |r| ==> IsWhitespace(s[k]))
            && (r == [] || !IsWhitespace(r[0]))
  {
    if s != [] && IsWhitespace(s[0]) {
      var t := s[1..];
      TrimStartSpec(t);
      var r := TrimStart(t);
      assert TrimStart(s) == r;
      assert t[|t| - |r|..] == s[|s| - |r|..];
      forall k | 0 <= k < |s| - |r|
        ensures IsWhitespace(s[k])
      {
        if k > 0 {
          assert s[k] == t[k - 1];
        }
      }
    }
  }

  /** `TrimEnd` keeps the prefix that ends at the last non-whitespace character. */
  lemma {:induction false} TrimEndSpec(s: string)
    ensures var r := TrimEnd(s);
            && |r| <= |s| && r == s[..|r|]
            && (forall k :: |r| <= k < |s| ==> IsWhitespace(s[k]))
            && (r == [] || !IsWhitespace(r[|r| - 1]))
  {
    if s != [] && IsWhitespace(s[|s| - 1]) {
      TrimEndSpec(s[..|s| - 1]);
    }
  }

  /**
   * `Trim` removes exactly the whitespace run at each end: whenever `s[..i]`
   * and `s[j..]` are whitespace and `s[i..j]` neither starts nor ends with
   * whitespace, `Trim(s)` is `s[i..j]`.
   */
  lemma TrimIsSlice(s: string, i: nat, j: nat)
    requires i <= j <= |s|
    requires forall k :: 0 <= k < i ==> IsWhitespace(s[k])
    requires forall k :: j <= k < |s| ==> IsWhitespace(s[k])
    requires i < j ==> !IsWhitespace(s[i]) && !IsWhitespace(s[j - 1])
    ensures Trim(s) == s[i..j]
  {
    var front := TrimStart(s);
    TrimStartSpec(s);
    TrimEndSpec(front);
    if i < j {
      assert |front| == |s| - i;
      var back := TrimEnd(front);
      assert |back| == j - i;
    } else {
      assert front == [];
    }
  }

  /** A trimmed string neither starts nor ends with whitespace, and trimming it again changes nothing. */
  lemma TrimTrimmed(s: string)
    ensures var r := Trim(s);
            && (r == [] || (!IsWhitespace(r[0]) && !IsWhitespace(r[|r| - 1])))
            && Trim(r) == r
  {
    var front := TrimStart(s);
    TrimStartSpec(s);
    TrimEndSpec(front);
    var r := Trim(s);
    if r != [] {
      assert r[0] == front[0];
    }
    TrimIsSlice(r, 0, |r|);
  }

  /** The number of occurrences of `c` in `s`. */
  function Count(s: string, c: char): (n: nat)
    ensures n <= |s|
    ensures n == 0 <==> c !in s
  {
    if s == [] then 0
    else
      assert s == s[..|s| - 1] + [s[|s| - 1]];
      Count(s[..|s| - 1], c) + (if s[|s| - 1] == c then 1 else 0)
  }

  /**
   * `s.split(sep)` for a one-character separator: the pieces between
   * successive separators, so there is one more piece than separators and
   * no piece contains the separator. The empty string splits into `[""]`.
   */
  function Split(s: string, sep: char): (pieces: seq<string>)
    ensures |pieces| == Count(s, sep) + 1
  {
    if s == [] then [""]
    else
      var init := Split(s[..|s| - 1], sep);
      if s[|s| - 1] == sep then init + [""]
      else ExtendLast(init, [s[|s| - 1]])
  }

  /** The pieces with `x` appended to the last one. */
  function ExtendLast(pieces: seq<string>, x: string): (r: seq<string>)
    requires |pieces| >= 1
    ensures |r| == |pieces|
  {
    pieces[..|pieces| - 1] + [pieces[|pieces| - 1] + x]
  }

  /** Extending the last piece twice extends it by both texts. */
  lemma ExtendLastTwice(pieces: seq<string>, x: string, y: string)
    requires |pieces| >= 1
    ensures ExtendLast(ExtendLast(pieces, x), y) == ExtendLast(pieces, x + y)
  {
    var n := |pieces|;
    var once := ExtendLast(pieces, x);
    assert once[..n - 1] == pieces[..n - 1];
    assert once[n - 1] + y == pieces[n - 1] + (x + y);
  }

  /** No piece of a split contains the separator. */
  lemma {:induction false} SplitPiecesFree(s: string, sep: char)
    ensures forall p :: p in Split(s, sep) ==> sep !in p
  {
    if s != [] {
      var init := s[..|s| - 1];
      var c := s[|s| - 1];
      var pi := Split(init, sep);
      SplitPiecesFree(init, sep);
      if c != sep {
        assert pi[|pi| - 1] in pi;
        forall p | p in Split(s, sep)
          ensures sep !in p
        {
          if p != pi[|pi| - 1] + [c] {
            assert p in pi[..|pi| - 1];
          }
        }
      }
    }
  }

  /** `pieces.join(sep)` for a one-character separator and at least one piece. */
  function Join(pieces: seq<string>, sep: char): string
    requires |pieces| >= 1
  {
    if |pieces| == 1 then pieces[0]
    else Join(pieces[..|pieces| - 1], sep) + [sep] + pieces[|pieces| - 1]
  }

  /** Extending the last piece extends the joined string by the same characters. */
  lemma JoinExtendLast(pieces: seq<string>, sep: char, x: string)
    requires |pieces| >= 1
    ensures Join(ExtendLast(pieces, x), sep) == Join(pieces, sep) + x
  {
    var n := |pieces|;
    var ext := ExtendLast(pieces, x);
    if n > 1 {
      assert ext[..n - 1] == pieces[..n - 1];
    }
  }

  /** A non-empty sequence is its prefix followed by its last element. */
  lemma InitLast<T>(s: seq<T>)
    requires |s| > 0
    ensures s[..|s| - 1] + [s[|s| - 1]] == s
  {
  }

  /** Joining the pieces of a split gives back the original string. */
  lemma {:induction false} JoinSplit(s: string, sep: char)
    ensures Join(Split(s, sep), sep) == s
  {
    if s != [] {
      var init := s[..|s| - 1];
      var c := s[|s| - 1];
      var p := Split(init, sep);
      JoinSplit(init, sep);
      assert s == init + [c];
      if c == sep {
        assert (p + [""])[..|p|] == p;
      } else {
        JoinExtendLast(p, sep, [c]);
      }
    }
  }

  /** Appending separator-free text to a string only extends its last piece. */
  lemma {:induction false} SplitAppendFree(t: string, p: string, sep: char)
    requires sep !in p
    ensures Split(t + p, sep) == ExtendLast(Split(t, sep), p)
  {
    var st := Split(t, sep);
    if p == [] {
      assert t + p == t;
      assert st[|st| - 1] + p == st[|st| - 1];
      InitLast(st);
    } else {
      var q := p[..|p| - 1];
      var c := p[|p| - 1];
      assert t + p == (t + q) + [c];
      assert c != sep by { assert c in p; }
      SplitAppendFree(t, q, sep);
      SplitAppendChar(t + q, c, sep);
      ExtendLastTwice(st, q, [c]);
      assert q + [c] == p;
    }
  }

  /** Appending a character other than the separator extends the last piece by it. */
  lemma SplitAppendChar(t: string, c: char, sep: char)
    requires c != sep
    ensures Split(t + [c], sep) == ExtendLast(Split(t, sep), [c])
  {
    assert (t + [c])[..|t|] == t;
  }

  /** Separator-free text is a single piece. */
  lemma {:induction false} SplitFree(p: string, sep: char)
    requires sep !in p
    ensures Split(p, sep) == [p]
  {
    if p != [] {
      var q := p[..|p| - 1];
      assert p == q + [p[|p| - 1]];
      SplitFree(q, sep);
    }
  }

  /** A separator followed by separator-free text opens one new piece holding that text. */
  lemma SplitSeparatorThenFree(t: string, p: string, sep: char)
    requires sep !in p
    ensures Split(t + [sep] + p, sep) == Split(t, sep) + [p]
  {
    var ts := t + [sep];
    assert ts[..|t|] == t;
    var st := Split(t, sep);
    assert Split(ts, sep) == st + [""];
    SplitAppendFree(ts, p, sep);
    assert (st + [""])[..|st|] == st;
    assert "" + p == p;
  }

  /** Splitting a join of separator-free pieces gives back the pieces. */
  lemma {:induction false} SplitJoin(pieces: seq<string>, sep: char)
    requires |pieces| >= 1
    requires forall p :: p in pieces ==> sep !in p
    ensures Split(Join(pieces, sep), sep) == pieces
  {
    var n := |pieces|;
    if n == 1 {
      assert pieces[0] in pieces;
      SplitFree(pieces[0], sep);
    } else {
      var init := pieces[..n - 1];
      assert forall p :: p in init ==> p in pieces;
      SplitJoin(init, sep);
      assert pieces[n - 1] in pieces;
      SplitSeparatorThenFree(Join(init, sep), pieces[n - 1], sep);
      InitLast(pieces);
    }
  }
}

/**
 The JavaScript built-ins the input resolver relies on, written out with the
 semantics ECMA-262 gives them: `String.prototype.trim`, `String.prototype.split`
 with a one-character separator and `Array.prototype.filter`. `Join` (what
 `Array.prototype.join` computes) is not called by the resolver; it is the
 reference definition the split round-trip is stated against.
 */
module JsBuiltins {

  /** The characters `trim` removes: ECMA-262's WhiteSpace (TAB, VT, FF, ZWNBSP and
      every space separator of category Zs) and LineTerminator (LF, CR, LS, PS). */
  predicate IsWhitespace(c: char) {
    || c == '\t' || c == '\U{000B}' || c == '\U{000C}' || c == '\U{FEFF}'
    || c == ' ' || c == '\U{00A0}' || c == '\U{1680}' || ('\U{2000}' <= c <= '\U{200A}')
    || c == '\U{202F}' || c == '\U{205F}' || c == '\U{3000}'
    || c == '\n' || c == '\r' || c == '\U{2028}' || c == '\U{2029}'
  }

  predicate AllWhitespace(s: string) {
    forall i :: 0 <= i < |s| ==> IsWhitespace(s[i])
  }

  /** Neither the first nor the last character is whitespace (vacuous for ""). */
  predicate NoSurroundingWhitespace(s: string) {
    s == [] || (!IsWhitespace(s[0]) && !IsWhitespace(s[|s| - 1]))
  }

  /** Drops the leading whitespace: the result is the suffix of `s` that starts
      at its first non-whitespace character. */
  function TrimStart(s: string): (r: string)
    ensures |r| <= |s| && r == s[|s| - |r|..]
    ensures AllWhitespace(s[..|s| - |r|])
    ensures r == [] || !IsWhitespace(r[0])
  {
    if s != [] && IsWhitespace(s[0]) then TrimStart(s[1..]) else s
  }

  /** Drops the trailing whitespace: the result is the prefix of `s` that ends
      at its last non-whitespace character. */
  function TrimEnd(s: string): (r: string)
    ensures |r| <= |s| && r == s[..|r|]
    ensures AllWhitespace(s[|r|..])
    ensures r == [] || !IsWhitespace(r[|r| - 1])
  {
    if s != [] && IsWhitespace(s[|s| - 1]) then TrimEnd(s[..|s| - 1]) else s
  }

  /** `s.trim()` */
  function Trim(s: string): (r: string)
    ensures |r| <= |s|
    ensures NoSurroundingWhitespace(r)
  {
    TrimEnd(TrimStart(s))
  }

  /** `Trim(s)` is `s` with a whitespace prefix and a whitespace suffix cut off. */
  lemma TrimIsInfix(s: string) returns (i: nat)
    ensures i + |Trim(s)| <= |s|
    ensures Trim(s) == s[i..i + |Trim(s)|]
    ensures AllWhitespace(s[..i]) && AllWhitespace(s[i + |Trim(s)|..])
  {
    var t := TrimStart(s);
    var r := TrimEnd(t);
    i := |s| - |t|;
    assert r == t[..|r|];
    assert s[i..] == t;
    assert s[i..i + |r|] == t[..|r|];
    assert s[i + |r|..] == t[|r|..];
  }

  lemma {:induction false} TrimStartSkips(p: string, m: string)
    requires AllWhitespace(p)
    requires m == [] || !IsWhitespace(m[0])
    ensures TrimStart(p + m) == m
    decreases |p|
  {
    if p != [] {
      assert (p + m)[1..] == p[1..] + m;
      assert AllWhitespace(p[1..]) by {
        forall i | 0 <= i < |p[1..]| ensures IsWhitespace(p[1..][i]) {
          assert p[1..][i] == p[i + 1];
        }
      }
      TrimStartSkips(p[1..], m);
    } else {
      assert p + m == m;
    }
  }

  lemma {:induction false} TrimEndSkips(m: string, q: string)
    requires AllWhitespace(q)
    requires m == [] || !IsWhitespace(m[|m| - 1])
    ensures TrimEnd(m + q) == m
    decreases |q|
  {
    if q != [] {
      var q' := q[..|q| - 1];
      assert (m + q)[..|m + q| - 1] == m + q';
      assert AllWhitespace(q') by {
        forall i | 0 <= i < |q'| ensures IsWhitespace(q'[i]) {
          assert q'[i] == q[i];
        }
      }
      TrimEndSkips(m, q');
    } else {
      assert m + q == m;
    }
  }

  lemma TrimStartOfWhitespace(s: string)
    requires AllWhitespace(s)
    ensures TrimStart(s) == []
  {
    TrimStartSkips(s, []);
    assert s + [] == s;
  }

  /** The reference definition of trim: cutting any whitespace prefix and suffix
      off a string without surrounding whitespace gives back that string. */
  lemma TrimUnique(p: string, m: string, q: string)
    requires AllWhitespace(p) && AllWhitespace(q)
    requires NoSurroundingWhitespace(m)
    ensures Trim(p + m + q) == m
  {
    if m == [] {
      assert p + m + q == p + q;
      assert AllWhitespace(p + q) by {
        forall i | 0 <= i < |p + q| ensures IsWhitespace((p + q)[i]) {
          if i < |p| { assert (p + q)[i] == p[i]; } else { assert (p + q)[i] == q[i - |p|]; }
        }
      }
      TrimStartOfWhitespace(p + q);
    } else {
      assert p + m + q == p + (m + q);
      TrimStartSkips(p, m + q);
      TrimEndSkips(m, q);
    }
  }

  /** Trim leaves a string without surrounding whitespace as it is; in
      particular it is idempotent, as Trim's own result has none. */
  lemma TrimKeepsClean(s: string)
    requires NoSurroundingWhitespace(s)
    ensures Trim(s) == s
  {
    TrimUnique([], s, []);
    assert [] + s + [] == s;
  }

  /** `s.split(sep)` for a one-character separator: the pieces of `s` between
      consecutive occurrences of `sep`, so never an empty list, one piece more
      than there are separators, and no piece contains the separator. */
  function Split(s: string, sep: char): (r: seq<string>)
    ensures |r| == multiset(s)[sep] + 1
    ensures forall k :: 0 <= k < |r| ==> sep !in r[k]
    decreases |s|
  {
    if s == [] then [""]
    else
      assert s == [s[0]] + s[1..];
      var rest := Split(s[1..], sep);
      if s[0] == sep then [""] + rest
      else [[s[0]] + rest[0]] + rest[1..]
  }

  /** `tokens.join(sep)`: the inverse of Split, used to state its round-trip. */
  function Join(tokens: seq<string>, sep: char): (r: string)
  {
    if |tokens| == 0 then ""
    else if |tokens| == 1 then tokens[0]
    else tokens[0] + [sep] + Join(tokens[1..], sep)
  }

  lemma JoinExtendsHead(c: char, tokens: seq<string>, sep: char)
    requires |tokens| >= 1
    ensures Join([[c] + tokens[0]] + tokens[1..], sep) == [c] + Join(tokens, sep)
  {
    var ts := [[c] + tokens[0]] + tokens[1..];
    assert ts[1..] == tokens[1..];
  }

  /** Splitting and joining on the same separator gives back the string. */
  lemma {:induction false} JoinSplit(s: string, sep: char)
    ensures Join(Split(s, sep), sep) == s
    decreases |s|
  {
    if s != [] {
      var rest := Split(s[1..], sep);
      JoinSplit(s[1..], sep);
      if s[0] == sep {
        JoinSplitAtSeparator(s, sep);
      } else {
        assert Split(s, sep) == [[s[0]] + rest[0]] + rest[1..];
        JoinExtendsHead(s[0], rest, sep);
        assert s == [s[0]] + s[1..];
      }
    }
  }

  lemma JoinSplitAtSeparator(s: string, sep: char)
    requires s != [] && s[0] == sep
    requires Join(Split(s[1..], sep), sep) == s[1..]
    ensures Join(Split(s, sep), sep) == s
  {
    var rest := Split(s[1..], sep);
    var ts := [""] + rest;
    assert Split(s, sep) == ts;
    assert ts[1..] == rest;
    assert Join(ts, sep) == "" + [sep] + Join(rest, sep);
    assert s == [sep] + s[1..];
  }

  lemma {:induction false} SplitWithoutSeparator(t: string, sep: char)
    requires sep !in t
    ensures Split(t, sep) == [t]
    decreases |t|
  {
    if t != [] {
      SplitWithoutSeparator(t[1..], sep);
      assert [t[0]] + t[1..] == t;
    }
  }

  lemma {:induction false} SplitAtFirstSeparator(t: string, sep: char, rest: string)
    requires sep !in t
    ensures Split(t + [sep] + rest, sep) == [t] + Split(rest, sep)
    decreases |t|
  {
    var s := t + [sep] + rest;
    if t == [] {
      assert s[1..] == rest;
    } else {
      assert s[1..] == t[1..] + [sep] + rest;
      SplitAtFirstSeparator(t[1..], sep, rest);
      assert [t[0]] + t[1..] == t;
    }
  }

  /** Joining tokens that do not contain the separator and splitting again
      gives back the tokens: the converse of JoinSplit. */
  lemma {:induction false} SplitJoin(tokens: seq<string>, sep: char)
    requires |tokens| >= 1
    requires forall k :: 0 <= k < |tokens| ==> sep !in tokens[k]
    ensures Split(Join(tokens, sep), sep) == tokens
    decreases |tokens|
  {
    if |tokens| == 1 {
      SplitWithoutSeparator(tokens[0], sep);
    } else {
      SplitAtFirstSeparator(tokens[0], sep, Join(tokens[1..], sep));
      SplitJoin(tokens[1..], sep);
      assert [tokens[0]] + tokens[1..] == tokens;
    }
  }

  /** `xs.filter(p)`: the elements of `xs` that satisfy `p`, in their order. */
  function Filter<T(!new)>(xs: seq<T>, p: T -> bool): (r: seq<T>)
    ensures |r| <= |xs|
    ensures forall k :: 0 <= k < |r| ==> p(r[k])
    ensures forall x :: x in r <==> x in xs && p(x)
  {
    if xs == [] then []
    else
      assert xs == [xs[0]] + xs[1..];
      (if p(xs[0]) then [xs[0]] else []) + Filter(xs[1..], p)
  }

  lemma {:induction false} FilterAppend<T(!new)>(xs: seq<T>, ys: seq<T>, p: T -> bool)
    ensures Filter(xs + ys, p) == Filter(xs, p) + Filter(ys, p)
    decreases |xs|
  {
    if xs == [] {
      assert xs + ys == ys;
    } else {
      assert (xs + ys)[1..] == xs[1..] + ys;
      FilterAppend(xs[1..], ys, p);
    }
  }

  /** `idx` lists, strictly increasing, positions of `xs` holding the elements of `r`. */
  ghost predicate SubsequenceAt<T>(r: seq<T>, xs: seq<T>, idx: seq<nat>) {
    && |idx| == |r|
    && (forall k :: 0 <= k < |idx| ==> idx[k] < |xs| && r[k] == xs[idx[k]])
    && (forall k, l :: 0 <= k < l < |idx| ==> idx[k] < idx[l])
  }

  /** Every position in `idx` moved one place to the right. */
  function Shifted(idx: seq<nat>): (r: seq<nat>)
    ensures |r| == |idx|
    ensures forall k :: 0 <= k < |r| ==> r[k] == idx[k] + 1
  {
    seq(|idx|, k requires 0 <= k < |idx| => idx[k] + 1)
  }

  lemma ShiftedMembers(idx: seq<nat>, i: nat)
    ensures i in Shifted(idx) <==> i > 0 && i - 1 in idx
  {
    var r := Shifted(idx);
    if i > 0 && i - 1 in idx {
      var k :| 0 <= k < |idx| && idx[k] == i - 1;
      assert r[k] == i;
    }
  }

  lemma SubsequenceOfTail<T>(r: seq<T>, xs: seq<T>, idx: seq<nat>)
    requires xs != [] && SubsequenceAt(r, xs[1..], idx)
    ensures SubsequenceAt(r, xs, Shifted(idx))
    ensures SubsequenceAt([xs[0]] + r, xs, [0] + Shifted(idx))
  {
    var sh := Shifted(idx);
    forall k | 0 <= k < |sh| ensures sh[k] < |xs| && r[k] == xs[sh[k]] {
      assert xs[1..][idx[k]] == xs[idx[k] + 1];
    }
    var r', sh' := [xs[0]] + r, [0] + sh;
    forall k | 0 <= k < |sh'| ensures sh'[k] < |xs| && r'[k] == xs[sh'[k]] {
      if k > 0 { assert r'[k] == r[k - 1] && sh'[k] == sh[k - 1]; }
    }
    forall k, l | 0 <= k < l < |sh'| ensures sh'[k] < sh'[l] {
      if k > 0 { assert sh'[k] == sh[k - 1]; }
      assert sh'[l] == sh[l - 1];
    }
  }

  lemma PositionsOfCons<T>(xs: seq<T>, p: T -> bool, tail: seq<nat>)
    requires xs != []
    requires forall i :: 0 <= i < |xs| - 1 ==> (p(xs[1..][i]) <==> i in tail)
    ensures var idx := if p(xs[0]) then [0] + Shifted(tail) else Shifted(tail);
      forall i :: 0 <= i < |xs| ==> (p(xs[i]) <==> i in idx)
  {
    var idx := if p(xs[0]) then [0] + Shifted(tail) else Shifted(tail);
    forall i | 0 <= i < |xs| ensures p(xs[i]) <==> i in idx {
      ShiftedMembers(tail, i);
      if i > 0 {
        assert xs[i] == xs[1..][i - 1];
      }
    }
  }

  /** The filter result is the subsequence of `xs` at exactly the positions
      whose element satisfies `p`. */
  lemma {:induction false} FilterPositions<T(!new)>(xs: seq<T>, p: T -> bool) returns (idx: seq<nat>)
    ensures SubsequenceAt(Filter(xs, p), xs, idx)
    ensures forall i :: 0 <= i < |xs| ==> (p(xs[i]) <==> i in idx)
    decreases |xs|
  {
    if xs == [] {
      idx := [];
    } else {
      var rest := Filter(xs[1..], p);
      var tail := FilterPositions(xs[1..], p);
      SubsequenceOfTail(rest, xs, tail);
      PositionsOfCons(xs, p, tail);
      if p(xs[0]) {
        assert Filter(xs, p) == [xs[0]] + rest;
        idx := [0] + Shifted(tail);
      } else {
        assert Filter(xs, p) == rest;
        idx := Shifted(tail);
      }
    }
  }
}

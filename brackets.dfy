/** Bracket nesting and the innermost pair: on a balanced string the pair
    `replaceInnerMostBracket` picks (the last `(` before the first `)`)
    holds no other bracket, and replacing it by a bracket-free text that is
    no longer than its interior leaves a shorter balanced string. This is
    why the bracket loop of `replaceAllOperatorsWithKeys` ends on every
    line the input check accepts.
 */
module BracketNesting {
  import opened Text
  import opened Keys
  import opened InputFormat

  /** Nesting adds up over concatenation. */
  lemma {:induction false} NestingConcat(a: string, b: string)
    ensures Nesting(a + b) == Nesting(a) + Nesting(b)
    decreases |b|
  {
    if b == [] {
      assert a + b == a;
    } else {
      var b' := b[..|b| - 1];
      NestingConcat(a, b');
      assert (a + b)[..|a + b| - 1] == a + b';
      assert (a + b)[|a + b| - 1] == b[|b| - 1];
    }
  }

  /** Without `)`, nesting counts the `(`; a string without brackets has
      nesting 0. */
  lemma {:induction false} NestingWithoutClose(t: string)
    ensures ')' !in t ==> Nesting(t) >= 0
    ensures ')' !in t && '(' in t ==> Nesting(t) >= 1
    ensures ')' !in t && '(' !in t ==> Nesting(t) == 0
    decreases |t|
  {
    if t != [] {
      var u := t[..|t| - 1];
      assert t == u + [t[|t| - 1]];
      assert forall c | c in u :: c in t;
      assert forall c | c in t :: c in u || c == t[|t| - 1];
      NestingWithoutClose(u);
    }
  }

  /** Without `(`, nesting never rises above 0. */
  lemma {:induction false} NestingWithoutOpen(t: string)
    ensures '(' !in t ==> Nesting(t) <= 0
    decreases |t|
  {
    if t != [] {
      var u := t[..|t| - 1];
      assert t == u + [t[|t| - 1]];
      assert forall c | c in u :: c in t;
      NestingWithoutOpen(u);
    }
  }

  /** A balanced string without `(` has no `)` either. */
  lemma BalancedWithoutOpen(t: string)
    requires Balanced(t) && '(' !in t
    ensures ')' !in t
  {
    if ')' in t {
      var j :| 0 <= j < |t| && t[j] == ')';
      var pre := t[..j];
      assert forall c | c in pre :: c in t;
      NestingWithoutOpen(pre);
      NestingStep(t, j);
    }
  }

  /** A bracket is opened before the first `)` of a balanced string that
      holds any bracket, and that `)` exists. */
  lemma InnermostPair(s: string)
    requires Balanced(s) && '(' in s
    ensures var close := FindFirst(s, {')'}, 0);
      close < |s| && LastBefore(s, '(', close) < close && s[LastBefore(s, '(', close)] == '('
  {
    var close := FindFirst(s, {')'}, 0);
    assert s[..|s|] == s;
    NestingWithoutClose(s);
    assert ')' in s;
    assert close < |s|;
    var pre := s[..close];
    NestingWithoutClose(pre);
    assert s[..close + 1][..close] == pre;
    assert Nesting(s[..close + 1]) == Nesting(pre) - 1;
    assert ')' !in pre;
    assert '(' in pre;
    var j :| 0 <= j < |pre| && pre[j] == '(';
    assert s[j] == '(';
  }

  /** Replacing a bracket-free middle part by another bracket-free string
      keeps a string balanced. */
  lemma {:induction false} SpliceBalanced(a: string, p: string, i: string, c: string)
    requires Balanced(a + p + c) && Nesting(p) == 0
    requires '(' !in i && ')' !in i
    requires forall k :: 0 <= k <= |p| ==> Nesting(p[..k]) >= 0
    ensures Balanced(a + i + c)
  {
    var s, t := a + p + c, a + i + c;
    NestingConcat(a + p, c);
    NestingConcat(a, p);
    NestingConcat(a + i, c);
    NestingConcat(a, i);
    NestingWithoutClose(i);
    forall k | 0 <= k <= |t|
      ensures Nesting(t[..k]) >= 0
    {
      if k <= |a| {
        assert t[..k] == s[..k];
      } else if k <= |a| + |i| {
        var m := k - |a|;
        assert t[..k] == a + i[..m];
        assert forall ch | ch in i[..m] :: ch in i;
        NestingWithoutClose(i[..m]);
        NestingConcat(a, i[..m]);
        assert s[..|a|] == a;
      } else {
        var m := k - |a| - |i|;
        assert t[..k] == (a + i) + c[..m];
        assert s[..|a| + |p| + m] == (a + p) + c[..m];
        NestingConcat(a + i, c[..m]);
        NestingConcat(a + p, c[..m]);
      }
    }
  }

  /** A bracket-free text between a pair of brackets nests to 0 and never
      below it. */
  lemma PairNesting(interior: string)
    requires '(' !in interior && ')' !in interior
    ensures var pat := "(" + interior + ")";
      Nesting(pat) == 0 && forall k :: 0 <= k <= |pat| ==> Nesting(pat[..k]) >= 0
  {
    var pat := "(" + interior + ")";
    NestingWithoutClose(interior);
    NestingConcat("(", interior);
    NestingConcat("(" + interior, ")");
    forall k | 0 <= k <= |pat|
      ensures Nesting(pat[..k]) >= 0
    {
      if k == 0 {
        assert pat[..k] == [];
      } else if k <= |interior| + 1 {
        assert pat[..k] == "(" + interior[..k - 1];
        assert forall ch | ch in interior[..k - 1] :: ch in interior;
        NestingWithoutClose(interior[..k - 1]);
        NestingConcat("(", interior[..k - 1]);
      } else {
        assert pat[..k] == pat;
      }
    }
  }

  /** Replacing the innermost pair of a balanced string by a bracket-free
      text no longer than its interior (what a successful bracket step
      does) gives a shorter balanced string. */
  lemma InnermostSplice(s: string, open: nat, close: nat, text: string)
    requires Balanced(s)
    requires close == FindFirst(s, {')'}, 0) && close < |s|
    requires open == LastBefore(s, '(', close) && open < close && s[open] == '('
    requires '(' !in text && ')' !in text && |text| < close - open + 1
    ensures var r := s[..open] + text + s[close + 1..];
      |r| < |s| && Balanced(r)
  {
    var interior := s[open + 1..close];
    InteriorFlat(s, open, close);
    var pat := "(" + interior + ")";
    var a, c := s[..open], s[close + 1..];
    assert s == a + pat + c;
    PairNesting(interior);
    SpliceBalanced(a, pat, text, c);
  }

  /** Between the last `(` before the first `)` and that `)` there is no
      bracket. */
  lemma InteriorFlat(s: string, open: nat, close: nat)
    requires close == FindFirst(s, {')'}, 0) && close <= |s|
    requires open == LastBefore(s, '(', close) && open < close
    ensures '(' !in s[open + 1..close] && ')' !in s[open + 1..close]
  {
    var interior := s[open + 1..close];
    forall m | 0 <= m < |interior|
      ensures interior[m] != '(' && interior[m] != ')'
    {
      assert interior[m] == s[open + 1 + m];
    }
  }

  /** The text of the innermost pair is the first occurrence of itself. */
  lemma InnermostOccurrence(s: string, open: nat, close: nat)
    requires close == FindFirst(s, {')'}, 0) && close < |s|
    requires open < close && s[open] == '('
    ensures var pat := "(" + s[open + 1..close] + ")";
      OccursAt(s, pat, open) && forall j :: 0 <= j < open ==> !OccursAt(s, pat, j)
  {
    var pat := "(" + s[open + 1..close] + ")";
    assert s[open..close + 1] == pat;
    forall j | 0 <= j < open
      ensures !OccursAt(s, pat, j)
    {
      assert pat[|pat| - 1] == ')';
      assert s[j + |pat| - 1] != ')';
    }
  }

  /** `t` is `s` with its innermost pair, brackets included, replaced by a
      bracket-free text no longer than the pair's interior. */
  ghost predicate InnermostReplaced(s: string, t: string) {
    var close := FindFirst(s, {')'}, 0);
    var open := LastBefore(s, '(', close);
    && open < close < |s|
    && exists mid :: Flat(mid) && |mid| < close - open && t == s[..open] + mid + s[close + 1..]
  }

  /** No bracket in `t`. */
  predicate Flat(t: string) {
    '(' !in t && ')' !in t
  }

  /** What the bracket step writes, on a balanced string with a bracket:
      replacing the first occurrence of the innermost pair by the collapsed
      interior replaces exactly that pair, and the result is shorter and
      still balanced. `open` and `close` are as the Java scan leaves them. */
  lemma InnermostRewrite(s: string, open: nat, close: nat, text: string)
    requires FindFirst(s, {')'}, 0) < |s| ==> close == FindFirst(s, {')'}, 0)
    requires open == LastBefore(s, '(', FindFirst(s, {')'}, 0)) && open < close <= |s|
    requires forall c | c in text :: c in s[open + 1..close] || IsKey(c)
    requires |text| <= close - open - 1
    ensures Balanced(s) && '(' in s ==>
      var r := ReplaceFirst(s, "(" + s[open + 1..close] + ")", text);
      |r| < |s| && Balanced(r) && InnermostReplaced(s, r)
  {
    if Balanced(s) && '(' in s {
      InnermostPair(s);
      var pat := "(" + s[open + 1..close] + ")";
      InteriorFlat(s, open, close);
      InnermostOccurrence(s, open, close);
      ReplaceFirstAt(s, pat, text, open);
      assert open + |pat| == close + 1;
      var r := s[..open] + text + s[close + 1..];
      assert ReplaceFirst(s, pat, text) == r;
      assert Flat(text);
      InnermostSplice(s, open, close, text);
    }
  }
}

/** Character classes and the few java.lang.String operations the
    calculator relies on: whitespace stripping, `indexOf`, `replaceFirst`
    (as a literal first-occurrence replacement) and `split` with Java's
    rule of dropping trailing empty pieces.
 */
module Text {
  import opened Outcomes

  /** Digits and the decimal point: the characters `isNumeric` accepts,
      the eleven it lists one by one. */
  function IsNumeric(c: char): (b: bool)
    ensures b <==> c in "0123456789."
  {
    '0' <= c <= '9' || c == '.'
  }

  /** The characters `isOperator` accepts; `~` is the unary-minus marker.
      No operator is numeric or whitespace. */
  function IsOperator(c: char): (b: bool)
    ensures b ==> !IsNumeric(c) && !IsWhitespace(c)
  {
    c in {'(', ')', '^', '-', '~', '*', '/', '%', '+'}
  }

  /** The characters matched by the regular expression `\s`. */
  predicate IsWhitespace(c: char) {
    c in {' ', '\t', '\n', '\U{B}', '\U{C}', '\r'}
  }

  /** `s.replaceAll("\\s+", "")`. */
  function StripWhitespace(s: string): (r: string)
    ensures |r| <= |s|
    ensures forall c :: c in r ==> c in s && !IsWhitespace(c)
    ensures forall c :: c in s && !IsWhitespace(c) ==> c in r
  {
    if s == [] then []
    else (if IsWhitespace(s[0]) then [] else [s[0]]) + StripWhitespace(s[1..])
  }

  /** Stripping keeps the order: the result of a concatenation is the
      concatenation of the results. */
  lemma {:induction false} StripWhitespaceConcat(a: string, b: string)
    ensures StripWhitespace(a + b) == StripWhitespace(a) + StripWhitespace(b)
    decreases |a|
  {
    if a == [] {
      assert a + b == b;
    } else {
      var head := if IsWhitespace(a[0]) then [] else [a[0]];
      var x, y := StripWhitespace(a[1..]), StripWhitespace(b);
      StripWhitespaceCons(a, b);
      StripWhitespaceConcat(a[1..], b);
      assert head + (x + y) == (head + x) + y;
    }
  }

  /** Stripping `a + b` for a non-empty `a` looks at the first character
      of `a` and goes on with the rest of `a` followed by `b`. */
  lemma StripWhitespaceCons(a: string, b: string)
    requires a != []
    ensures StripWhitespace(a + b) ==
      (if IsWhitespace(a[0]) then [] else [a[0]]) + StripWhitespace(a[1..] + b)
  {
    assert (a + b)[0] == a[0] && (a + b)[1..] == a[1..] + b;
  }

  /** A single character is dropped when it is whitespace and kept
      otherwise. */
  lemma StripWhitespaceChar(c: char)
    ensures StripWhitespace([c]) == if IsWhitespace(c) then [] else [c]
  {
    assert [c][1..] == [];
  }

  /** Stripping is idempotent: a string without whitespace is left alone. */
  lemma {:induction false} StripWhitespaceIdempotent(s: string)
    ensures StripWhitespace(StripWhitespace(s)) == StripWhitespace(s)
  {
    StripKeepsClean(StripWhitespace(s));
  }

  lemma {:induction false} StripKeepsClean(s: string)
    requires forall c :: c in s ==> !IsWhitespace(c)
    ensures StripWhitespace(s) == s
  {
    if s != [] {
      assert s[0] in s;
      assert forall c :: c in s[1..] ==> c in s;
      StripKeepsClean(s[1..]);
      assert s == [s[0]] + s[1..];
    }
  }

  /** The index of the first character at or after `from` that lies in `cs`,
      or `|s|` when there is none. */
  function FindFirst(s: string, cs: set<char>, from: nat): (i: nat)
    requires from <= |s|
    ensures from <= i <= |s|
    ensures i < |s| ==> s[i] in cs
    ensures forall j :: from <= j < i ==> s[j] !in cs
    decreases |s| - from
  {
    if from == |s| then |s|
    else if s[from] in cs then from
    else FindFirst(s, cs, from + 1)
  }

  /** The index of the last `ch` before `end`, or 0 when there is none (the
      initial value of Java's `innerMostOpeningBracketIndex`). */
  function LastBefore(s: string, ch: char, end: nat): (i: nat)
    requires end <= |s|
    ensures i == 0 || i < end
    ensures i < end && s[i] == ch ==> forall j :: i < j < end ==> s[j] != ch
    ensures (exists j :: 0 <= j < end && s[j] == ch) ==> i < end && s[i] == ch
    ensures (forall j :: 0 <= j < end ==> s[j] != ch) ==> i == 0
  {
    if end == 0 then 0
    else if s[end - 1] == ch then end - 1
    else LastBefore(s, ch, end - 1)
  }

  /** `pat` occurs in `s` starting at index `j`. */
  predicate OccursAt(s: string, pat: string, j: nat) {
    j + |pat| <= |s| && s[j..j + |pat|] == pat
  }

  /** `s.indexOf(pat, from)`, as an option. */
  function IndexOf(s: string, pat: string, from: nat): (r: Option<nat>)
    ensures r.Some? ==> from <= r.value && OccursAt(s, pat, r.value)
    ensures r.Some? ==> forall j :: from <= j < r.value ==> !OccursAt(s, pat, j)
    ensures r.None? ==> forall j :: from <= j ==> !OccursAt(s, pat, j)
    decreases |s| - from
  {
    if from + |pat| > |s| then None
    else if s[from..from + |pat|] == pat then Some(from)
    else IndexOf(s, pat, from + 1)
  }

  /** `s.replaceFirst(pat, rep)` with `pat` read literally: the first
      occurrence of `pat` is replaced by `rep`; without one, `s` is returned. */
  function ReplaceFirst(s: string, pat: string, rep: string): (r: string)
    ensures IndexOf(s, pat, 0).None? ==> r == s
    ensures IndexOf(s, pat, 0).Some? ==>
      var i := IndexOf(s, pat, 0).value;
      r == s[..i] + rep + s[i + |pat|..] && |r| == |s| - |pat| + |rep|
    ensures forall c :: c in r ==> c in s || c in rep
  {
    match IndexOf(s, pat, 0)
    case None => s
    case Some(i) =>
      assert forall c :: c in s[..i] || c in s[i + |pat|..] ==> c in s;
      s[..i] + rep + s[i + |pat|..]
  }

  /** When `pat` first occurs at `j`, `ReplaceFirst` splices `rep` in there. */
  lemma ReplaceFirstAt(s: string, pat: string, rep: string, j: nat)
    requires OccursAt(s, pat, j)
    requires forall k :: 0 <= k < j ==> !OccursAt(s, pat, k)
    ensures ReplaceFirst(s, pat, rep) == s[..j] + rep + s[j + |pat|..]
  {
    var r := IndexOf(s, pat, 0);
    assert r.Some? && r.value == j;
  }

  /** The pieces of `s` between characters of `seps`, all of them kept. */
  function Pieces(s: string, seps: set<char>): (ps: seq<string>)
    ensures |ps| >= 1
    decreases |s|
  {
    var i := FindFirst(s, seps, 0);
    if i == |s| then [s] else [s[..i]] + Pieces(s[i + 1..], seps)
  }

  /** Drops empty strings from the end, as `String.split` does. */
  function DropTrailingEmpty(ps: seq<string>): (r: seq<string>)
    ensures |r| <= |ps| && r == ps[..|r|]
    ensures r != [] ==> r[|r| - 1] != []
    ensures forall k :: |r| <= k < |ps| ==> ps[k] == []
  {
    if |ps| > 0 && ps[|ps| - 1] == [] then DropTrailingEmpty(ps[..|ps| - 1]) else ps
  }

  /** `s.split(regex)` for a regex that is a character class `seps`: without
      a separator the result is `[s]`; otherwise the pieces between
      separators, trailing empty ones dropped. */
  function JavaSplit(s: string, seps: set<char>): (ps: seq<string>)
    ensures FindFirst(s, seps, 0) == |s| ==> ps == [s]
    ensures |ps| <= |Pieces(s, seps)| && ps == Pieces(s, seps)[..|ps|]
    ensures forall k :: |ps| <= k < |Pieces(s, seps)| ==> Pieces(s, seps)[k] == []
    ensures FindFirst(s, seps, 0) < |s| && ps != [] ==> ps[|ps| - 1] != []
  {
    if FindFirst(s, seps, 0) == |s| then [s] else DropTrailingEmpty(Pieces(s, seps))
  }

  /** The inverse of splitting on one character. */
  function Join(ps: seq<string>, sep: char): string
  {
    if ps == [] then []
    else if |ps| == 1 then ps[0]
    else ps[0] + [sep] + Join(ps[1..], sep)
  }

  /** Splitting on a single separator and joining again gives the string back. */
  lemma {:induction false} JoinPieces(s: string, sep: char)
    ensures Join(Pieces(s, {sep}), sep) == s
    decreases |s|
  {
    var i := FindFirst(s, {sep}, 0);
    if i < |s| {
      var rest := Pieces(s[i + 1..], {sep});
      JoinPieces(s[i + 1..], sep);
      assert Pieces(s, {sep}) == [s[..i]] + rest;
      assert s == s[..i] + [sep] + s[i + 1..];
    }
  }

  /** No piece contains a separator, and every character of a piece is a
      character of `s`. */
  lemma {:induction false} PiecesChars(s: string, seps: set<char>)
    ensures forall p, c :: p in Pieces(s, seps) && c in p ==> c in s && c !in seps
    decreases |s|
  {
    var i := FindFirst(s, seps, 0);
    if i < |s| {
      PiecesChars(s[i + 1..], seps);
      assert forall c :: c in s[..i] ==> c in s && c !in seps;
      assert forall c :: c in s[i + 1..] ==> c in s;
    }
  }

  /** The same for `JavaSplit`. */
  lemma SplitChars(s: string, seps: set<char>)
    ensures forall p, c :: p in JavaSplit(s, seps) && c in p ==> c in s && c !in seps
  {
    PiecesChars(s, seps);
    if FindFirst(s, seps, 0) < |s| {
      var ps := Pieces(s, seps);
      var r := DropTrailingEmpty(ps);
      assert forall p :: p in r ==> p in ps;
    }
  }

  /** Every character of `s` that is not a separator lies in some piece. */
  lemma {:induction false} PiecesCover(s: string, seps: set<char>, c: char)
    requires c in s && c !in seps
    ensures exists k :: 0 <= k < |Pieces(s, seps)| && c in Pieces(s, seps)[k]
    decreases |s|
  {
    var i := FindFirst(s, seps, 0);
    var ps := Pieces(s, seps);
    var j :| 0 <= j < |s| && s[j] == c;
    if i == |s| {
      assert c in ps[0];
    } else if j < i {
      assert s[..i][j] == c;
      assert c in ps[0];
    } else {
      var rest := s[i + 1..];
      assert rest[j - i - 1] == c;
      PiecesCover(rest, seps, c);
      var k :| 0 <= k < |Pieces(rest, seps)| && c in Pieces(rest, seps)[k];
      assert ps[k + 1] == Pieces(rest, seps)[k];
    }
  }

  /** The same for `JavaSplit`: only empty pieces are dropped. */
  lemma SplitCovers(s: string, seps: set<char>, c: char)
    requires c in s && c !in seps
    ensures exists k :: 0 <= k < |JavaSplit(s, seps)| && c in JavaSplit(s, seps)[k]
  {
    var ps := JavaSplit(s, seps);
    if FindFirst(s, seps, 0) == |s| {
      assert c in ps[0];
    } else {
      PiecesCover(s, seps, c);
      var k :| 0 <= k < |Pieces(s, seps)| && c in Pieces(s, seps)[k];
      assert k < |ps|;
      assert c in ps[k];
    }
  }

  /** The index of the first string in `ps` that contains `c`, or `|ps|`. */
  function FirstContaining(ps: seq<string>, c: char): (k: nat)
    ensures k <= |ps|
    ensures k < |ps| ==> c in ps[k]
    ensures forall j :: 0 <= j < k ==> c !in ps[j]
  {
    if ps == [] then 0
    else if c in ps[0] then 0
    else 1 + FirstContaining(ps[1..], c)
  }

  /** An occurrence inside an occurrence is an occurrence. */
  lemma OccursWithin(s: string, x: string, p: string, i: nat, j: nat)
    requires OccursAt(s, x, i) && OccursAt(x, p, j)
    ensures OccursAt(s, p, i + j)
  {
    forall m | 0 <= m < |p|
      ensures s[i + j + m] == p[m]
    {
      assert s[i + j + m] == s[i..i + |x|][j + m];
    }
  }

  /** When `pat` occurs anywhere, `ReplaceFirst` removes one copy of it. */
  lemma ReplaceFirstFound(s: string, pat: string, rep: string)
    requires exists j :: OccursAt(s, pat, j)
    ensures |ReplaceFirst(s, pat, rep)| == |s| - |pat| + |rep|
  {
  }

  /** The first piece is the text before the first separator. */
  lemma PiecesHead(s: string, seps: set<char>)
    ensures Pieces(s, seps)[0] == s[..FindFirst(s, seps, 0)]
  {
    var i := FindFirst(s, seps, 0);
    if i == |s| {
      assert s[..i] == s;
    }
  }

  /** A string with a separator is its first piece, the separator and the
      rest, whose pieces follow the first. */
  lemma PiecesUnfold(s: string, seps: set<char>) returns (i: nat)
    requires |Pieces(s, seps)| >= 2
    ensures i < |s| && s[i] in seps
    ensures Pieces(s, seps) == [s[..i]] + Pieces(s[i + 1..], seps)
  {
    i := FindFirst(s, seps, 0);
  }

  /** The text after index `i` occurs right after it. */
  lemma SuffixAt(s: string, i: nat)
    requires i < |s|
    ensures OccursAt(s, s[i + 1..], i + 1)
  {
    assert s[i + 1..i + 1 + |s[i + 1..]|] == s[i + 1..];
  }

  /** Every piece occurs in the string it was cut from. */
  lemma {:induction false} PieceAt(s: string, seps: set<char>, k: nat) returns (j: nat)
    requires k < |Pieces(s, seps)|
    ensures OccursAt(s, Pieces(s, seps)[k], j)
    decreases |s|
  {
    j := 0;
    if k == 0 {
      PiecesHead(s, seps);
      var head := s[..FindFirst(s, seps, 0)];
      assert s[0..|head|] == head;
    } else {
      var i := PiecesUnfold(s, seps);
      var rest := s[i + 1..];
      var j' := PieceAt(rest, seps, k - 1);
      SuffixAt(s, i);
      OccursWithin(s, rest, Pieces(rest, seps)[k - 1], i + 1, j');
      j := i + 1 + j';
    }
  }

  /** Pieces `k` and `k + 1` of `ps` occur at `j` with `sep` between them. */
  predicate PairOccursAt(s: string, ps: seq<string>, sep: char, k: nat, j: nat) {
    k + 1 < |ps| && OccursAt(s, ps[k] + [sep] + ps[k + 1], j)
  }

  /** A prefix, the character after it and a prefix of what follows occur
      together at the start. */
  lemma JoinAt(s: string, i: nat, n: nat)
    requires i + 1 + n <= |s|
    ensures OccursAt(s, s[..i] + [s[i]] + s[i + 1..][..n], 0)
  {
    var pair := s[..i] + [s[i]] + s[i + 1..][..n];
    assert s[i + 1..][..n] == s[i + 1..i + 1 + n];
    assert s[..i + 1 + n] == s[..i] + [s[i]] + s[i + 1..i + 1 + n];
    assert s[0..|pair|] == pair;
  }

  /** The first two pieces occur at the start with the separator between
      them. */
  lemma FirstPairAt(s: string, sep: char)
    requires |Pieces(s, {sep})| >= 2
    ensures PairOccursAt(s, Pieces(s, {sep}), sep, 0, 0)
  {
    var i := PiecesUnfold(s, {sep});
    var rest := s[i + 1..];
    PiecesHead(rest, {sep});
    JoinAt(s, i, FindFirst(rest, {sep}, 0));
  }

  /** A pair of pieces found in the text after the first separator is found
      in the whole string, one piece further on. */
  lemma PairShift(s: string, sep: char, ps: seq<string>, rs: seq<string>, i: nat, k: nat, j: nat)
    requires i < |s| && ps == [s[..i]] + rs && 1 <= k && k + 1 < |ps|
    requires PairOccursAt(s[i + 1..], rs, sep, k - 1, j)
    ensures PairOccursAt(s, ps, sep, k, i + 1 + j)
  {
    assert ps[k] == rs[k - 1] && ps[k + 1] == rs[k];
    SuffixAt(s, i);
    OccursWithin(s, s[i + 1..], rs[k - 1] + [sep] + rs[k], i + 1, j);
  }

  /** Two neighbouring pieces occur in the string with their separator
      between them. */
  lemma {:induction false} PairAt(s: string, sep: char, k: nat) returns (j: nat)
    requires k + 1 < |Pieces(s, {sep})|
    ensures PairOccursAt(s, Pieces(s, {sep}), sep, k, j)
    decreases |s|
  {
    j := 0;
    if k == 0 {
      FirstPairAt(s, sep);
    } else {
      var i := PiecesUnfold(s, {sep});
      var rest := s[i + 1..];
      var j' := PairAt(rest, sep, k - 1);
      PairShift(s, sep, Pieces(s, {sep}), Pieces(rest, {sep}), i, k, j');
      j := i + 1 + j';
    }
  }
}

/** The input check run on every line before conversion (`checkInputFormat`):
    after whitespace is removed, only digits, `.` and the characters
    `( ) ^ - * / % +` may appear, and the brackets must balance.
 */
module InputFormat {
  import opened Outcomes
  import opened Text
  import opened CharStack

  /** The characters the input check admits: digits, the decimal point and
      the bracket and operator characters other than `~`. */
  predicate IsAllowed(c: char) {
    IsNumeric(c) || c in {'(', ')', '^', '-', '*', '/', '%', '+'}
  }

  /** The allowed characters are exactly the numeric ones and the operators
      other than the unary marker `~`. */
  lemma AllowedIsNumericOrOperator(c: char)
    ensures IsAllowed(c) <==> IsNumeric(c) || (IsOperator(c) && c != '~')
  {
  }

  predicate AllAllowed(t: string) {
    forall c | c in t :: IsAllowed(c)
  }

  /** Opening minus closing brackets in `t`. */
  function Nesting(t: string): int
  {
    if t == [] then 0
    else
      var last := t[|t| - 1];
      Nesting(t[..|t| - 1]) + (if last == '(' then 1 else if last == ')' then -1 else 0)
  }

  /** No prefix closes more brackets than it opens, and all are closed. */
  predicate Balanced(t: string) {
    Nesting(t) == 0 && forall k :: 0 <= k <= |t| ==> Nesting(t[..k]) >= 0
  }

  /** No prefix holds more open brackets than the stack's capacity. */
  predicate DepthBounded(t: string) {
    forall k :: 0 <= k <= |t| ==> Nesting(t[..k]) <= DefaultMaxSize
  }

  /** What a line must satisfy before it is converted. */
  predicate Accepted(input: string) {
    var t := StripWhitespace(input);
    AllAllowed(t) && Balanced(t)
  }

  /** A string without brackets has nesting 0 at every prefix. */
  lemma {:induction false} NoBracketsFlat(t: string)
    requires '(' !in t && ')' !in t
    ensures forall k :: 0 <= k <= |t| ==> Nesting(t[..k]) == 0
    decreases |t|
  {
    if t != [] {
      var u := t[..|t| - 1];
      assert forall c :: c in u ==> c in t;
      NoBracketsFlat(u);
      forall k | 0 <= k <= |t|
        ensures Nesting(t[..k]) == 0
      {
        if k < |t| {
          assert t[..k] == u[..k];
        } else {
          assert t[..k] == t;
          assert u[..|u|] == u;
        }
      }
    }
  }

  /** The nesting after one more character. */
  lemma NestingStep(t: string, i: nat)
    requires i < |t|
    ensures Nesting(t[..i + 1]) == Nesting(t[..i]) + (if t[i] == '(' then 1 else if t[i] == ')' then -1 else 0)
  {
    assert t[..i + 1][..i] == t[..i];
  }

  /** The second half of `checkInputFormat`: when `t` holds a bracket, a
      stack of open brackets is kept while scanning. Besides `true` and
      `false` this can throw: `push` overflows once 256 brackets are open. */
  method CheckBrackets(t: string) returns (r: Outcome<bool>)
    ensures r.Ok? ==> (r.value <==> Balanced(t))
    ensures r.Fault? ==> r.fault == StackOverflow && !DepthBounded(t)
    ensures DepthBounded(t) ==> r == Ok(Balanced(t))
  {
    if '(' in t || ')' in t {
      var stack := new Stack();
      for i := 0 to |t|
        invariant stack.Valid() && fresh(stack.stackArray)
        invariant stack.maxSize == DefaultMaxSize
        invariant |stack.Contents()| == Nesting(t[..i])
        invariant forall k :: 0 <= k <= i ==> 0 <= Nesting(t[..k]) <= DefaultMaxSize
      {
        NestingStep(t, i);
        if t[i] == '(' {
          var n := stack.Size();
          if n == stack.maxSize {
            assert Nesting(t[..i + 1]) > DefaultMaxSize;
            return Fault(StackOverflow);
          }
          stack.Push(t[i]);
        } else if t[i] == ')' {
          var empty := stack.IsEmpty();
          if empty {
            assert Nesting(t[..i + 1]) < 0;
            return Ok(false);
          }
          var _ := stack.Pop();
        }
      }
      assert t[..|t|] == t;
      var empty := stack.IsEmpty();
      if !empty {
        return Ok(false);
      }
    } else {
      NoBracketsFlat(t);
      assert t[..|t|] == t;
    }
    return Ok(true);
  }

  /** `checkInputFormat`: whitespace is removed, any character outside the
      allowed set rejects the line, and then the brackets are checked. */
  method CheckInputFormat(input: string) returns (r: Outcome<bool>)
    ensures !AllAllowed(StripWhitespace(input)) ==> r == Ok(false)
    ensures r.Ok? ==> (r.value <==> Accepted(input))
    ensures r.Fault? ==> r.fault == StackOverflow && !DepthBounded(StripWhitespace(input))
    ensures DepthBounded(StripWhitespace(input)) ==> r == Ok(Accepted(input))
  {
    var t := StripWhitespace(input);
    if !AllAllowed(t) {
      return Ok(false);
    }
    r := CheckBrackets(t);
  }
}

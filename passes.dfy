/** The passes of `replaceAllOperatorsWithKeys`: brackets first, then `^`,
    unary `-`, `* / %` and `+ -`, each pass repeating its step until the
    operators it handles are gone.
 */
module Passes {
  import opened Outcomes
  import opened Text
  import opened Keys
  import opened Steps
  import opened InputFormat
  import opened BracketNesting

  /** The three binary precedence levels. */
  datatype Level = Power | Product | Sum

  /** The loop condition of each binary pass. */
  predicate Pending(level: Level, s: string) {
    match level
    case Power => '^' in s
    case Product => '*' in s || '/' in s || '%' in s
    case Sum => '+' in s || '-' in s
  }

  function LevelStep(level: Level, s: string, ctx: Context): (r: Outcome<Rewritten>)
    ensures r.Ok? ==> Preserves(s, ctx, r.value)
    ensures r.Ok? && Pending(level, s) ==> BoundOne(ctx, r.value)
    ensures r != Fault(Diverges)
  {
    match level
    case Power => PowStep(s, ctx)
    case Product => MulDivModStep(s, ctx)
    case Sum => PluMinStep(s, ctx)
  }

  /** `while (input.contains(...)) { input = replaceX(input); if (input == null) return null; }`.
      On success no operator of the level is left. */
  function LevelPass(level: Level, s: string, ctx: Context): (r: Outcome<Rewritten>)
    ensures r.Ok? ==> Preserves(s, ctx, r.value) && !Pending(level, r.value.text)
    ensures r != Fault(Diverges)
    decreases KeysLeft(ctx)
  {
    if !Pending(level, s) then Ok(Rewritten(s, ctx))
    else
      var step :- LevelStep(level, s, ctx);
      var r := LevelPass(level, step.text, step.ctx);
      if r.Ok? then PreservesTransitive(s, ctx, step, r.value); r else r
  }

  /** The unary-minus loop, which runs until `replaceUnaryMin` changes
      nothing. On success no unary minus is left. */
  function UnaryPass(s: string, ctx: Context): (r: Outcome<Rewritten>)
    ensures r.Ok? ==> Preserves(s, ctx, r.value) && !HasUnaryMinus(r.value.text)
    ensures !r.Ok? ==> r == Fault(OutOfKeys)
    decreases KeysLeft(ctx)
  {
    var step :- UnaryStep(s, ctx);
    if step.text == s then
      UnaryStepUnchangedIff(s, ctx);
      Ok(step)
    else
      var r := UnaryPass(step.text, step.ctx);
      if r.Ok? then PreservesTransitive(s, ctx, step, r.value); r else r
  }

  /** No operator character of the conversion is left. */
  predicate OperatorFree(s: string) {
    forall c | c in s :: c !in {'^', '*', '/', '%', '+', '-'}
  }

  /** The four operator passes in their fixed order. On success every
      operator has been folded into a binding. */
  function OperatorPasses(s: string, ctx: Context): (r: Outcome<Rewritten>)
    ensures r.Ok? ==> Preserves(s, ctx, r.value) && OperatorFree(r.value.text)
    ensures r != Fault(Diverges)
  {
    var a :- LevelPass(Power, s, ctx);
    var b :- UnaryPass(a.text, a.ctx);
    var c :- LevelPass(Product, b.text, b.ctx);
    var d :- LevelPass(Sum, c.text, c.ctx);
    PreservesTransitive(s, ctx, a, b);
    PreservesTransitive(s, ctx, b, c);
    PreservesTransitive(s, ctx, c, d);
    Ok(d)
  }

  /** `replaceInnerMostBracket`: the interior of the last `(` before the
      first `)` is collapsed by the operator passes, and the bracketed span
      is replaced by the result. A `null` from the inner passes is not
      checked by the Java code and leads to a NullPointerException. */
  function BracketStep(s: string, ctx: Context): (r: Outcome<Rewritten>)
    ensures r.Ok? ==> Preserves(s, ctx, r.value) && (r.value.text == s || |r.value.text| < |s|)
    ensures !r.Malformed? && r != Fault(Diverges)
  {
    var firstClose := FindFirst(s, {')'}, 0);
    var close := if firstClose < |s| then firstClose else 0;
    var open := LastBefore(s, '(', firstClose);
    if open + 1 > close then Fault(IndexOutOfBounds) else BracketSplice(s, ctx, open, close)
  }

  /** The bracket step once the pair at `open` and `close` is found: its
      interior is collapsed and the bracketed span replaced by the result. */
  function BracketSplice(s: string, ctx: Context, open: nat, close: nat): (r: Outcome<Rewritten>)
    requires open < close <= |s|
    ensures r.Ok? ==> Preserves(s, ctx, r.value) && (r.value.text == s || |r.value.text| < |s|)
    ensures !r.Malformed? && r != Fault(Diverges)
  {
    var interior := s[open + 1..close];
    match OperatorPasses(interior, ctx)
    case Malformed => Fault(NullDereference)
    case Fault(f) => Fault(f)
    case Ok(inner) =>
      SpliceKeeps(s, ctx, open, close, inner);
      Ok(Rewritten(ReplaceFirst(s, "(" + interior + ")", inner.text), inner.ctx))
  }

  lemma SpliceKeeps(s: string, ctx: Context, open: nat, close: nat, inner: Rewritten)
    requires open < close <= |s|
    requires Preserves(s[open + 1..close], ctx, inner)
    ensures var text := ReplaceFirst(s, "(" + s[open + 1..close] + ")", inner.text);
      Preserves(s, ctx, Rewritten(text, inner.ctx)) && (text == s || |text| < |s|)
  {
    var interior := s[open + 1..close];
    assert forall c | c in interior :: c in s;
    if WellBound(s, ctx) {
      assert WellBound(interior, ctx);
      KeysInExtends(s, ctx, inner.ctx);
    }
  }

  /** The bracket loop of `replaceAllOperatorsWithKeys`. When the bracket
      step does not change the string, the Java loop would repeat it forever. */
  function BracketPass(s: string, ctx: Context): (r: Outcome<Rewritten>)
    ensures r.Ok? ==> Preserves(s, ctx, r.value) && '(' !in r.value.text
    decreases |s|
  {
    if '(' !in s then Ok(Rewritten(s, ctx))
    else
      var step :- BracketStep(s, ctx);
      if step.text == s then Fault(Diverges)
      else
        var r := BracketPass(step.text, step.ctx);
        if r.Ok? then PreservesTransitive(s, ctx, step, r.value); r else r
  }

  /** `replaceAllOperatorsWithKeys`: on success no `(` and no operator is
      left, every key in the result is bound, and the context has only gained
      bindings under new keys. A `)` survives only on unbalanced input. */
  function Convert(s: string, ctx: Context): (r: Outcome<Rewritten>)
    ensures r.Ok? ==> Preserves(s, ctx, r.value) && '(' !in r.value.text && OperatorFree(r.value.text)
  {
    var b :- BracketPass(s, ctx);
    var r :- OperatorPasses(b.text, b.ctx);
    PreservesTransitive(s, ctx, b, r);
    Ok(r)
  }

  /** One binary pass, as the Java `while` loop. */
  method RunLevel(level: Level, s: string, ctx: Context) returns (r: Outcome<Rewritten>)
    ensures r == LevelPass(level, s, ctx)
  {
    var cur, cctx := s, ctx;
    while Pending(level, cur)
      invariant LevelPass(level, cur, cctx) == LevelPass(level, s, ctx)
      decreases KeysLeft(cctx)
    {
      var step: Outcome<Rewritten>;
      match level {
        case Power => step := ReplacePow(cur, cctx);
        case Product => step := ReplaceMulDivMod(cur, cctx);
        case Sum => step := ReplacePluMin(cur, cctx);
      }
      if !step.Ok? {
        return step;
      }
      cur, cctx := step.value.text, step.value.ctx;
    }
    return Ok(Rewritten(cur, cctx));
  }

  /** The four operator loops shared by `replaceAllOperatorsWithKeys` and
      `replaceInnerMostBracket`. */
  method CollapseOperators(s: string, ctx: Context) returns (r: Outcome<Rewritten>)
    ensures r == OperatorPasses(s, ctx)
  {
    var a := RunLevel(Power, s, ctx);
    if !a.Ok? {
      return a;
    }
    var cur, cctx := a.value.text, a.value.ctx;
    while true
      invariant UnaryPass(cur, cctx) == UnaryPass(a.value.text, a.value.ctx)
      decreases KeysLeft(cctx)
    {
      var step := ReplaceUnaryMin(cur, cctx);
      if !step.Ok? {
        return step.PropagateFailure();
      }
      if step.value.text == cur {
        cctx := step.value.ctx;
        break;
      }
      cur, cctx := step.value.text, step.value.ctx;
    }
    var c := RunLevel(Product, cur, cctx);
    if !c.Ok? {
      return c;
    }
    r := RunLevel(Sum, c.value.text, c.value.ctx);
  }

  /** The scan at the top of `replaceInnerMostBracket`: the first `)` and
      the last `(` before it, both 0 when absent. */
  method FindInnerMostBracket(s: string) returns (open: nat, close: nat)
    ensures var firstClose := FindFirst(s, {')'}, 0);
      close == (if firstClose < |s| then firstClose else 0)
      && open == LastBefore(s, '(', firstClose)
  {
    open, close := 0, 0;
    for i := 0 to |s|
      invariant open == LastBefore(s, '(', i)
      invariant forall j :: 0 <= j < i ==> s[j] != ')'
      invariant close == 0
    {
      if s[i] == '(' {
        open := i;
      } else if s[i] == ')' {
        close := i;
        assert FindFirst(s, {')'}, 0) == i;
        return;
      }
    }
    assert FindFirst(s, {')'}, 0) == |s|;
  }

  /** `replaceInnerMostBracket`. On a balanced string with a bracket, a
      successful step replaces exactly the innermost pair and leaves a
      shorter balanced string. */
  method ReplaceInnerMostBracket(s: string, ctx: Context) returns (r: Outcome<Rewritten>)
    ensures r == BracketStep(s, ctx)
    ensures r.Ok? && Balanced(s) && '(' in s ==>
      |r.value.text| < |s| && Balanced(r.value.text) && InnermostReplaced(s, r.value.text)
  {
    var open, close := FindInnerMostBracket(s);
    if open + 1 > close {
      return Fault(IndexOutOfBounds);
    }
    var interior := s[open + 1..close];
    var inner := CollapseOperators(interior, ctx);
    match inner {
      case Malformed =>
        r := Fault(NullDereference);
      case Fault(f) =>
        r := Fault(f);
      case Ok(v) =>
        r := Ok(Rewritten(ReplaceFirst(s, "(" + interior + ")", v.text), v.ctx));
        if Balanced(s) && '(' in s {
          InnermostRewrite(s, open, close, v.text);
        }
    }
  }

  /** `replaceAllOperatorsWithKeys`. On balanced input the bracket loop
      ends and no bracket at all is left. */
  method ReplaceAllOperatorsWithKeys(s: string, ctx: Context) returns (r: Outcome<Rewritten>)
    ensures r == Convert(s, ctx)
    ensures Balanced(s) ==> r != Fault(Diverges)
    ensures Balanced(s) && r.Ok? ==> Flat(r.value.text)
  {
    var cur, cctx := s, ctx;
    while '(' in cur
      invariant BracketPass(cur, cctx) == BracketPass(s, ctx)
      invariant Balanced(s) ==> Balanced(cur)
      decreases |cur|
    {
      var step := ReplaceInnerMostBracket(cur, cctx);
      if !step.Ok? {
        return step;
      }
      if step.value.text == cur {
        return Fault(Diverges);
      }
      cur, cctx := step.value.text, step.value.ctx;
    }
    if Balanced(s) {
      BalancedWithoutOpen(cur);
    }
    r := CollapseOperators(cur, cctx);
  }
}

/** The single rewrite steps of the infix-to-postfix conversion. Each step
    finds one operator occurrence, binds its postfix text to the next key
    and replaces the matched span of the working string with that key
    (`replacePow`, `replaceUnaryMin`, `replaceMulDivMod`, `replacePluMin`).
 */
module Steps {
  import opened Outcomes
  import opened Text
  import opened Keys

  /** A working string together with the context it was produced in. */
  datatype Rewritten = Rewritten(text: string, ctx: Context)

  /** What every successful step guarantees: the string does not grow, and a
      well-bound string stays well bound in a context that only gained new
      bindings. */
  predicate Preserves(s: string, ctx: Context, r: Rewritten) {
    && |r.text| <= |s|
    && (forall c | c in r.text :: c in s || IsKey(c))
    && (WellBound(s, ctx) ==> WellBound(r.text, r.ctx) && Extends(ctx, r.ctx))
  }

  /** Successive steps compose. */
  lemma PreservesTransitive(s: string, ctx: Context, r1: Rewritten, r2: Rewritten)
    requires Preserves(s, ctx, r1) && Preserves(r1.text, r1.ctx, r2)
    ensures Preserves(s, ctx, r2)
  {
    if WellBound(s, ctx) {
      ExtendsTransitive(ctx, r1.ctx, r2.ctx);
    }
  }

  /** The state is left exactly as it was. */
  predicate Unchanged(s: string, ctx: Context, r: Rewritten) {
    r.text == s && r.ctx == ctx
  }

  /** Exactly one binding was added. */
  predicate BoundOne(ctx: Context, r: Rewritten) {
    r.ctx.next as int == ctx.next as int + 1
  }

  /** The tail shared by every step: `hashMap.put(key, postfix)`, then
      `input.replaceFirst(pattern, key)`, then the key is advanced. */
  function BindAndReplace(s: string, ctx: Context, pat: string, postfix: string): (r: Outcome<Rewritten>)
    requires |pat| >= 1 && |postfix| >= 2
    requires WellBound(s, ctx) ==> KeysIn(postfix, ctx.table, ctx.next)
    ensures r.Ok? <==> ctx.next < LastKey
    ensures !r.Ok? ==> r == Fault(OutOfKeys)
    ensures r.Ok? ==> r.value.ctx.table == ctx.table[ctx.next := postfix]
    ensures r.Ok? ==> r.value.text == ReplaceFirst(s, pat, [ctx.next])
    ensures r.Ok? ==> BoundOne(ctx, r.value) && Preserves(s, ctx, r.value)
  {
    var ctx' :- Bind(ctx, postfix);
    var text := ReplaceFirst(s, pat, [ctx.next]);
    if WellBound(s, ctx) then
      BindKeepsWellBound(ctx, postfix, text);
      Ok(Rewritten(text, ctx'))
    else
      Ok(Rewritten(text, ctx'))
  }

  /** The two operands a binary step takes. */
  datatype Operands = Operands(left: string, right: string)

  /** The first segment of `s` (cut at `seps`) that contains `op`, split at
      `op`; `None` when no segment contains `op`. When `op` is not a
      separator, that happens exactly when `op` does not occur at all, so
      the Java array `s2` is never left `null` once the step has seen `op`. */
  function OperandPieces(s: string, op: char, seps: set<char>): (r: Option<seq<string>>)
    ensures op !in seps ==> (r.None? <==> op !in s)
    ensures r.Some? ==> forall p, c | p in r.value && c in p :: c in s && c != op
  {
    var segs := JavaSplit(s, seps);
    var k := FirstContaining(segs, op);
    if k == |segs| then
      NoSegmentWithOp(s, op, seps);
      None
    else
      SegmentPiecesChars(s, seps, op, k);
      SplitChars(s, seps);
      assert segs[k] in segs;
      Some(JavaSplit(segs[k], {op}))
  }

  /** No segment holds `op` only when `s` does not, unless `op` separates. */
  lemma NoSegmentWithOp(s: string, op: char, seps: set<char>)
    requires FirstContaining(JavaSplit(s, seps), op) == |JavaSplit(s, seps)|
    ensures op !in seps ==> op !in s
  {
    if op !in seps && op in s {
      SplitCovers(s, seps, op);
    }
  }

  /** The operand choice shared by the three binary steps. No segment with
      `op` leaves the Java array `null`; an empty operand is a format error
      (`null`); a single operand makes the index `[1]` (or `[length - 2]`)
      fail. Otherwise the last pair is taken when `lastPair`, else the first.
      The chosen operands are non-empty and stand around an `op` in `s`. */
  function ChosenOperands(s: string, op: char, seps: set<char>, lastPair: bool): (r: Outcome<Operands>)
    ensures r == Fault(NullDereference) <==> OperandPieces(s, op, seps).None?
    ensures r.Malformed? <==> OperandPieces(s, op, seps).Some? && [] in OperandPieces(s, op, seps).value
    ensures r == Fault(IndexOutOfBounds) <==>
      OperandPieces(s, op, seps).Some? && [] !in OperandPieces(s, op, seps).value
      && |OperandPieces(s, op, seps).value| < 2
    ensures !r.Ok? ==> r.Malformed? || r == Fault(NullDereference) || r == Fault(IndexOutOfBounds)
    ensures r.Ok? ==> r.value.left != [] && r.value.right != []
    ensures r.Ok? ==> forall c | c in r.value.left || c in r.value.right :: c in s && c != op
    ensures r.Ok? ==> exists j :: OccursAt(s, r.value.left + [op] + r.value.right, j)
    ensures r.Ok? ==> OperandPieces(s, op, seps).Some? && |OperandPieces(s, op, seps).value| >= 2
    ensures r.Ok? && lastPair ==>
      var ps := OperandPieces(s, op, seps).value;
      r.value.left == ps[|ps| - 2] && r.value.right == ps[|ps| - 1]
    ensures r.Ok? && !lastPair ==>
      var ps := OperandPieces(s, op, seps).value;
      r.value.left == ps[0] && r.value.right == ps[1]
  {
    match OperandPieces(s, op, seps)
    case None => Fault(NullDereference)
    case Some(pieces) =>
      if [] in pieces then Malformed
      else if |pieces| < 2 then Fault(IndexOutOfBounds)
      else
        var m := if lastPair then |pieces| - 2 else 0;
        assert pieces[m] in pieces && pieces[m + 1] in pieces;
        PairOccurs(s, op, seps, m, pieces[m], pieces[m + 1]);
        Ok(Operands(pieces[m], pieces[m + 1]))
  }

  /** Neighbouring operands occur in `s` around their operator. */
  lemma PairOccurs(s: string, op: char, seps: set<char>, m: nat, a: string, b: string)
    requires OperandPieces(s, op, seps).Some? && m + 1 < |OperandPieces(s, op, seps).value|
    requires a == OperandPieces(s, op, seps).value[m] && b == OperandPieces(s, op, seps).value[m + 1]
    ensures exists j :: OccursAt(s, a + [op] + b, j)
  {
    var segs := JavaSplit(s, seps);
    var k := FirstContaining(segs, op);
    var seg := segs[k];
    var pieces := JavaSplit(seg, {op});
    var i := PieceAt(s, seps, k);
    var j := PairAt(seg, op, m);
    OccursWithin(s, seg, pieces[m] + [op] + pieces[m + 1], i, j);
  }

  /** What a binary step does with the operands it chose: it fails as the
      choice does, runs out of keys when the counter is exhausted, and
      otherwise binds `"a b op"` under the next key and replaces `a op b` by
      it, so the string loses exactly the two operands. */
  predicate BindsChosen(s: string, ctx: Context, op: char, chosen: Outcome<Operands>, r: Outcome<Rewritten>) {
    && (r.Ok? <==> chosen.Ok? && ctx.next < LastKey)
    && (chosen.Ok? && !r.Ok? ==> r == Fault(OutOfKeys))
    && (!chosen.Ok? ==> r == chosen.PropagateFailure())
    && (r.Ok? ==>
          && BoundOne(ctx, r.value)
          && r.value.ctx.table == ctx.table[ctx.next := chosen.value.left + " " + chosen.value.right + " " + [op]]
          && |r.value.text| + |chosen.value.left| + |chosen.value.right| == |s|)
  }

  /** The part shared by the three binary steps. */
  function SplitStep(s: string, ctx: Context, op: char, seps: set<char>, lastPair: bool): (r: Outcome<Rewritten>)
    requires !IsKey(op)
    ensures r.Ok? ==> Preserves(s, ctx, r.value)
    ensures BindsChosen(s, ctx, op, ChosenOperands(s, op, seps, lastPair), r)
  {
    var p :- ChosenOperands(s, op, seps, lastPair);
    ReplaceFirstFound(s, p.left + [op] + p.right, [ctx.next]);
    BindPair(s, ctx, op, p.left, p.right)
  }

  /** The string a successful binary step leaves: the first `a op b` is
      replaced by the new key. */
  lemma SplitStepText(s: string, ctx: Context, op: char, seps: set<char>, lastPair: bool)
    requires !IsKey(op) && SplitStep(s, ctx, op, seps, lastPair).Ok?
    ensures var p := ChosenOperands(s, op, seps, lastPair).value;
      SplitStep(s, ctx, op, seps, lastPair).value.text == ReplaceFirst(s, p.left + [op] + p.right, [ctx.next])
  {
  }

  /** Binds `"a b op"` and replaces the first `a op b`. */
  function BindPair(s: string, ctx: Context, op: char, a: string, b: string): (r: Outcome<Rewritten>)
    requires forall c | c in a || c in b :: c in s
    requires !IsKey(op)
    ensures r.Ok? <==> ctx.next < LastKey
    ensures r.Ok? ==> BoundOne(ctx, r.value) && Preserves(s, ctx, r.value)
    ensures r.Ok? ==> r.value.ctx.table == ctx.table[ctx.next := a + " " + b + " " + [op]]
    ensures r.Ok? ==> r.value.text == ReplaceFirst(s, a + [op] + b, [ctx.next])
  {
    var postfix := a + " " + b + " " + [op];
    assert forall c | c in postfix :: c in a || c in b || c == ' ' || c == op;
    BindAndReplace(s, ctx, a + [op] + b, postfix)
  }

  /** The operands a binary step takes are made of characters of its input. */
  lemma SegmentPiecesChars(s: string, seps: set<char>, op: char, k: nat)
    requires k < |JavaSplit(s, seps)|
    ensures forall p, c | p in JavaSplit(JavaSplit(s, seps)[k], {op}) && c in p :: c in s && c != op
  {
    var segs := JavaSplit(s, seps);
    SplitChars(s, seps);
    SplitChars(segs[k], {op});
    assert segs[k] in segs;
  }

  /** The separators `replacePow` splits on: every operator but `^`. */
  const PowSeparators: set<char> := {'-', '*', '/', '%', '+'}

  /** `replacePow`. */
  function PowStep(s: string, ctx: Context): (r: Outcome<Rewritten>)
    ensures r.Ok? ==> Preserves(s, ctx, r.value)
    ensures '^' !in s ==> r.Ok? && Unchanged(s, ctx, r.value)
    ensures '^' in s ==> BindsChosen(s, ctx, '^', ChosenOperands(s, '^', PowSeparators, true), r)
  {
    if '^' !in s then Ok(Rewritten(s, ctx))
    else SplitStep(s, ctx, '^', PowSeparators, true)
  }

  /** The operator `replaceMulDivMod` works on: `*` if present, else `/`,
      else `%`, wherever they stand. */
  function ProductOperator(s: string): (op: char)
    requires '*' in s || '/' in s || '%' in s
    ensures op in s && op in {'*', '/', '%'}
    ensures op != '*' ==> '*' !in s
    ensures op == '%' ==> '/' !in s
  {
    if '*' in s then '*' else if '/' in s then '/' else '%'
  }

  /** `replaceMulDivMod`. */
  function MulDivModStep(s: string, ctx: Context): (r: Outcome<Rewritten>)
    ensures r.Ok? ==> Preserves(s, ctx, r.value)
    ensures '*' !in s && '/' !in s && '%' !in s ==> r.Ok? && Unchanged(s, ctx, r.value)
    ensures '*' in s || '/' in s || '%' in s ==>
      var op := ProductOperator(s);
      BindsChosen(s, ctx, op, ChosenOperands(s, op, {'*', '/', '%', '+', '-'} - {op}, false), r)
  {
    if '*' !in s && '/' !in s && '%' !in s then Ok(Rewritten(s, ctx))
    else
      var op := ProductOperator(s);
      SplitStep(s, ctx, op, {'*', '/', '%', '+', '-'} - {op}, false)
  }

  /** The operator `replacePluMin` works on: `+` if present, else `-`. */
  function SumOperator(s: string): (op: char)
    requires '+' in s || '-' in s
    ensures op in s && op in {'+', '-'}
    ensures op == '-' ==> '+' !in s
  {
    if '+' in s then '+' else '-'
  }

  /** `replacePluMin`. */
  function PluMinStep(s: string, ctx: Context): (r: Outcome<Rewritten>)
    ensures r.Ok? ==> Preserves(s, ctx, r.value)
    ensures '+' !in s && '-' !in s ==> r.Ok? && Unchanged(s, ctx, r.value)
    ensures '+' in s || '-' in s ==>
      var op := SumOperator(s);
      BindsChosen(s, ctx, op, ChosenOperands(s, op, {'+', '-'} - {op}, false), r)
  {
    if '+' !in s && '-' !in s then Ok(Rewritten(s, ctx))
    else
      var op := SumOperator(s);
      SplitStep(s, ctx, op, {'+', '-'} - {op}, false)
  }

  /** The characters after which a `-` counts as unary. The source tests for
      `_` where `-` was evidently meant, so `3--4` has no unary minus. */
  const UnaryPredecessors: set<char> := {'(', '^', '*', '/', '%', '+', '_'}

  /** The end of the run of numeric characters that starts at `from`. */
  function NumericRunEnd(s: string, from: nat): (j: nat)
    requires from <= |s|
    ensures from <= j <= |s|
    ensures forall k :: from <= k < j ==> IsNumeric(s[k])
    ensures j < |s| ==> !IsNumeric(s[j])
    decreases |s| - from
  {
    if from == |s| || !IsNumeric(s[from]) then from else NumericRunEnd(s, from + 1)
  }

  /** A `-` at `i` that follows one of the unary predecessors. */
  predicate IsUnaryMinusAt(s: string, i: int) {
    1 <= i < |s| && s[i] == '-' && s[i - 1] in UnaryPredecessors
  }

  /** The first index at or after `from` holding a unary minus, or `|s|`. */
  function FirstUnaryMinus(s: string, from: nat): (i: nat)
    requires 1 <= from <= |s|
    ensures from <= i <= |s|
    ensures i < |s| ==> IsUnaryMinusAt(s, i)
    ensures forall j :: from <= j < i ==> !IsUnaryMinusAt(s, j)
    decreases |s| - from
  {
    if from == |s| then |s|
    else if IsUnaryMinusAt(s, from) then from
    else FirstUnaryMinus(s, from + 1)
  }

  /** Binds the unary minus at `i` together with the numeric run after it
      as `"operand ~"`. */
  function BindUnary(s: string, ctx: Context, i: nat): (r: Outcome<Rewritten>)
    requires i < |s| && s[i] == '-'
    ensures r.Ok? <==> ctx.next < LastKey
    ensures !r.Ok? ==> r == Fault(OutOfKeys)
    ensures r.Ok? ==> BoundOne(ctx, r.value) && Preserves(s, ctx, r.value) && r.value.text != s
    ensures r.Ok? ==>
      var operand := s[i + 1..NumericRunEnd(s, i + 1)];
      && r.value.ctx.table == ctx.table[ctx.next := operand + " ~"]
      && r.value.text == ReplaceFirst(s, "-" + operand, [ctx.next])
  {
    var operand := s[i + 1..NumericRunEnd(s, i + 1)];
    assert forall c | c in operand :: IsNumeric(c);
    assert s[i..i + 1 + |operand|] == "-" + operand;
    var r := BindAndReplace(s, ctx, "-" + operand, operand + " ~");
    if r.Ok? then
      ReplacedMinusDiffers(s, operand, i, ctx.next);
      r
    else r
  }

  /** Replacing an occurrence of `-operand` by a key changes the string. */
  lemma ReplacedMinusDiffers(s: string, operand: string, i: nat, key: char)
    requires i + 1 + |operand| <= |s| && s[i..i + 1 + |operand|] == "-" + operand
    requires key != '-'
    ensures ReplaceFirst(s, "-" + operand, [key]) != s
  {
    var pat := "-" + operand;
    assert OccursAt(s, pat, i);
    var p := IndexOf(s, pat, 0);
    var j := p.value;
    var r := ReplaceFirst(s, pat, [key]);
    assert s[j] == pat[0];
    assert r[j] == key;
  }

  /** `replaceUnaryMin`: a `-` at the front, else the first `-` that follows a
      unary predecessor, is bound with its operand; without one the input is
      returned as it is. */
  function UnaryStep(s: string, ctx: Context): (r: Outcome<Rewritten>)
    ensures r.Ok? ==> Preserves(s, ctx, r.value)
    ensures r.Ok? ==> Unchanged(s, ctx, r.value) || (r.value.text != s && BoundOne(ctx, r.value))
    ensures !r.Ok? ==> r == Fault(OutOfKeys)
  {
    if '-' !in s then Ok(Rewritten(s, ctx))
    else if s[0] == '-' then BindUnary(s, ctx, 0)
    else
      var i := FirstUnaryMinus(s, 1);
      if i == |s| then Ok(Rewritten(s, ctx)) else BindUnary(s, ctx, i)
  }

  /** The input holds a minus that `replaceUnaryMin` treats as unary. */
  predicate HasUnaryMinus(s: string) {
    (|s| > 0 && s[0] == '-') || exists i | 0 <= i < |s| :: IsUnaryMinusAt(s, i)
  }

  /** Where `replaceUnaryMin` acts: index 0 if the input starts with `-`,
      else the first `-` that follows a unary predecessor. */
  function UnaryMinusIndex(s: string): (i: nat)
    requires HasUnaryMinus(s)
    ensures i < |s| && s[i] == '-'
    ensures i == 0 <==> s[0] == '-'
    ensures i > 0 ==> IsUnaryMinusAt(s, i) && forall j :: 1 <= j < i ==> !IsUnaryMinusAt(s, j)
  {
    if s[0] == '-' then 0
    else
      var j :| 0 <= j < |s| && IsUnaryMinusAt(s, j);
      assert FirstUnaryMinus(s, 1) <= j;
      FirstUnaryMinus(s, 1)
  }

  /** `replaceUnaryMin` leaves its input alone exactly when it holds no unary
      minus. */
  lemma UnaryStepUnchangedIff(s: string, ctx: Context)
    ensures UnaryStep(s, ctx) == Ok(Rewritten(s, ctx)) <==> !HasUnaryMinus(s)
  {
    if HasUnaryMinus(s) {
      var i := UnaryMinusIndex(s);
      assert s[i] in s;
    } else if '-' in s && s[0] != '-' {
      assert FirstUnaryMinus(s, 1) == |s|;
    }
  }

  /** Otherwise it binds the minus at `UnaryMinusIndex` together with the
      maximal numeric run after it as `"operand ~"`. */
  lemma UnaryStepBinds(s: string, ctx: Context)
    requires HasUnaryMinus(s) && ctx.next < LastKey
    ensures var i := UnaryMinusIndex(s);
      var operand := s[i + 1..NumericRunEnd(s, i + 1)];
      UnaryStep(s, ctx).Ok?
      && UnaryStep(s, ctx).value.ctx.table == ctx.table[ctx.next := operand + " ~"]
      && UnaryStep(s, ctx).value.text == ReplaceFirst(s, "-" + operand, [ctx.next])
  {
    var i := UnaryMinusIndex(s);
    assert s[i] in s;
  }

  /** The operand scans of `replaceUnaryMin`: the index of the first
      non-numeric character from `from` on, left at 0 while none is found
      and then set to the length. */
  method OperandEnd(s: string, from: nat) returns (end: nat)
    requires 1 <= from <= |s|
    ensures end == NumericRunEnd(s, from)
  {
    end := 0;
    for j := from to |s|
      invariant end == 0
      invariant forall k :: from <= k < j ==> IsNumeric(s[k])
    {
      if !IsNumeric(s[j]) {
        end := j;
        break;
      }
    }
    if end == 0 {
      end := |s|;
    }
  }

  /** `replaceUnaryMin`, scanning the input as the Java loops do: the
      scanned operand is bound as `"operand ~"` and `-operand` is replaced. */
  method ReplaceUnaryMin(s: string, ctx: Context) returns (r: Outcome<Rewritten>)
    ensures r == UnaryStep(s, ctx)
  {
    if '-' !in s {
      return Ok(Rewritten(s, ctx));
    }
    var minus := 0;
    if s[0] != '-' {
      minus := ScanUnaryMinus(s);
      if minus == |s| {
        return Ok(Rewritten(s, ctx));
      }
    }
    r := BindScanned(s, ctx, minus);
  }

  /** The search loop of `replaceUnaryMin`'s second case: the first `-`
      after a unary predecessor, or the length when there is none. The Java
      loop starts at 0, but this case is reached only when index 0 holds no
      `-`, so starting at 1 finds the same index. */
  method ScanUnaryMinus(s: string) returns (minus: nat)
    requires |s| >= 1
    ensures minus == FirstUnaryMinus(s, 1)
  {
    minus := |s|;
    for i := 1 to |s|
      invariant forall j :: 1 <= j < i ==> !IsUnaryMinusAt(s, j)
    {
      if s[i] == '-' && s[i - 1] in UnaryPredecessors {
        assert IsUnaryMinusAt(s, i);
        minus := i;
        break;
      }
    }
  }

  /** The tail of both cases of `replaceUnaryMin`: scan the operand after the
      minus at `minus`, bind it as `"operand ~"` and replace `-operand`. */
  method BindScanned(s: string, ctx: Context, minus: nat) returns (r: Outcome<Rewritten>)
    requires minus < |s| && s[minus] == '-'
    ensures r == BindUnary(s, ctx, minus)
  {
    var end := OperandEnd(s, minus + 1);
    var operand := s[minus + 1..end];
    assert forall c | c in operand :: IsNumeric(c);
    r := BindAndReplace(s, ctx, "-" + operand, operand + " ~");
  }

  /** The shared body of `replacePow`, `replaceMulDivMod` and `replacePluMin`
      after the operator is chosen, with the two Java loops: the search for
      the first piece containing the operator and the check for an empty
      operand. */
  method SplitAndBind(s: string, ctx: Context, op: char, seps: set<char>, lastPair: bool)
    returns (r: Outcome<Rewritten>)
    requires !IsKey(op)
    ensures r == SplitStep(s, ctx, op, seps, lastPair)
  {
    var found := FindOperandPieces(s, op, seps);
    if found.None? {
      return Fault(NullDereference);
    }
    var pieces := found.value;
    var empty := HasEmptyPiece(pieces);
    if empty {
      return Malformed;
    }
    if |pieces| < 2 {
      return Fault(IndexOutOfBounds);
    }
    var m := if lastPair then |pieces| - 2 else 0;
    assert ChosenOperands(s, op, seps, lastPair) == Ok(Operands(pieces[m], pieces[m + 1]));
    r := BindPair(s, ctx, op, pieces[m], pieces[m + 1]);
  }

  /** The check for an empty operand. */
  method HasEmptyPiece(pieces: seq<string>) returns (b: bool)
    ensures b <==> [] in pieces
  {
    for i := 0 to |pieces|
      invariant forall j :: 0 <= j < i ==> pieces[j] != []
    {
      if pieces[i] == [] {
        return true;
      }
    }
    return false;
  }

  /** The search for the first segment that holds the operator, split at
      the operator. */
  method FindOperandPieces(s: string, op: char, seps: set<char>) returns (r: Option<seq<string>>)
    ensures r == OperandPieces(s, op, seps)
  {
    var segs := JavaSplit(s, seps);
    for i := 0 to |segs|
      invariant forall j :: 0 <= j < i ==> op !in segs[j]
    {
      if op in segs[i] {
        assert FirstContaining(segs, op) == i;
        return Some(JavaSplit(segs[i], {op}));
      }
    }
    return None;
  }

  /** `replacePow`. */
  method ReplacePow(s: string, ctx: Context) returns (r: Outcome<Rewritten>)
    ensures r == PowStep(s, ctx)
  {
    if '^' !in s {
      return Ok(Rewritten(s, ctx));
    }
    r := SplitAndBind(s, ctx, '^', PowSeparators, true);
  }

  /** `replaceMulDivMod`. */
  method ReplaceMulDivMod(s: string, ctx: Context) returns (r: Outcome<Rewritten>)
    ensures r == MulDivModStep(s, ctx)
  {
    if '*' !in s && '/' !in s && '%' !in s {
      return Ok(Rewritten(s, ctx));
    }
    var op := if '*' in s then '*' else if '/' in s then '/' else '%';
    r := SplitAndBind(s, ctx, op, {'*', '/', '%', '+', '-'} - {op}, false);
  }

  /** `replacePluMin`. */
  method ReplacePluMin(s: string, ctx: Context) returns (r: Outcome<Rewritten>)
    ensures r == PluMinStep(s, ctx)
  {
    if '+' !in s && '-' !in s {
      return Ok(Rewritten(s, ctx));
    }
    var op := if '+' in s then '+' else '-';
    r := SplitAndBind(s, ctx, op, {'+', '-'} - {op}, false);
  }
}

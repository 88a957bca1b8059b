/** Worked cases of single steps, as the Java code behaves on them:
    `replacePow` on chained powers, a trailing operator, and a doubled
    minus sign.
 */
module Examples {
  import opened Outcomes
  import opened Text
  import opened Keys
  import opened Steps

  /** One cut of `Pieces`, at a separator with none before it. */
  lemma PiecesCut(s: string, seps: set<char>, i: nat, head: string, tail: string)
    requires i < |s| && s[i] in seps && forall j :: 0 <= j < i ==> s[j] !in seps
    requires head == s[..i] && tail == s[i + 1..]
    ensures Pieces(s, seps) == [head] + Pieces(tail, seps)
  {
    assert FindFirst(s, seps, 0) == i;
  }

  /** A string without separators is one piece, also for `JavaSplit`. */
  lemma PiecesWhole(s: string, seps: set<char>)
    requires forall j :: 0 <= j < |s| ==> s[j] !in seps
    ensures Pieces(s, seps) == [s] && JavaSplit(s, seps) == [s]
  {
    assert FindFirst(s, seps, 0) == |s|;
  }

  /** `"5*"` splits at `*` into the single piece `"5"`: Java drops the
      trailing empty string, so no operand is empty and the step fails on
      the missing second operand instead of reporting a format error. */
  lemma TrailingProduct(ctx: Context)
    ensures MulDivModStep("5*", ctx) == Fault(IndexOutOfBounds)
  {
    PiecesWhole("5*", {'/', '%', '+', '-'});
    PiecesWhole("", {'*'});
    PiecesCut("5*", {'*'}, 1, "5", "");
    assert DropTrailingEmpty(["5", ""]) == ["5"] by {
      assert ["5", ""][..1] == ["5"];
    }
    assert FindFirst("5*", {'*'}, 0) == 1;
    assert JavaSplit("5*", {'*'}) == ["5"];
  }

  /** In `"3--4"` the second `-` follows a `-`, which is not among the
      characters the unary test looks for, so no unary minus is found. */
  lemma DoubleMinusNotUnary(ctx: Context)
    ensures UnaryStep("3--4", ctx) == Ok(Rewritten("3--4", ctx))
  {
    var s := "3--4";
    assert !HasUnaryMinus(s) by {
      assert !IsUnaryMinusAt(s, 1) && !IsUnaryMinusAt(s, 2);
    }
    UnaryStepUnchangedIff(s, ctx);
  }

  /** The pieces the binary minus step cuts `"3--4"` into: one is empty. */
  lemma DoubleMinusPieces(s: string)
    requires s == "3--4"
    ensures OperandPieces(s, '-', {'+'}).Some? && [] in OperandPieces(s, '-', {'+'}).value
  {
    PiecesWhole(s, {'+'});
    PiecesWhole("4", {'-'});
    PiecesCut("-4", {'-'}, 0, "", "4");
    PiecesCut(s, {'-'}, 1, "3", "-4");
    assert FindFirst(s, {'-'}, 0) == 1;
    assert "" in JavaSplit(s, {'-'});
  }

  /** The binary minus step then meets an empty operand: a format error. */
  lemma DoubleMinusMalformed(ctx: Context)
    ensures PluMinStep("3--4", ctx) == Malformed
  {
    var s := "3--4";
    assert '-' in s && '+' !in s by { assert s[1] == '-'; }
    DoubleMinusPieces(s);
    assert {'+', '-'} - {'-'} == {'+'};
  }

  /** Once the operands are known, a power step with keys left replaces
      the first `a^b` by the next key. */
  lemma PowStepReplaces(s: string, ctx: Context, a: string, b: string, text: string)
    requires '^' in s && ctx.next < LastKey
    requires ChosenOperands(s, '^', PowSeparators, true) == Ok(Operands(a, b))
    requires ReplaceFirst(s, a + "^" + b, [ctx.next]) == text
    ensures PowStep(s, ctx).Ok? && PowStep(s, ctx).value.text == text
  {
    var r := PowStep(s, ctx);
    assert BindsChosen(s, ctx, '^', Ok(Operands(a, b)), r);
    SplitStepText(s, ctx, '^', PowSeparators, true);
    assert a + ['^'] + b == a + "^" + b;
  }

  /** How `replacePow` cuts `"2^3^4"`: one segment, then its `^` pieces. */
  lemma ChainedPowerSplit(s: string)
    requires s == "2^3^4"
    ensures JavaSplit(s, PowSeparators) == [s]
    ensures JavaSplit(s, {'^'}) == ["2", "3", "4"]
  {
    PiecesWhole(s, PowSeparators);
    PiecesWhole("4", {'^'});
    PiecesCut("3^4", {'^'}, 1, "3", "4");
    PiecesCut(s, {'^'}, 1, "2", "3^4");
    assert FindFirst(s, {'^'}, 0) == 1;
  }

  /** The operands `replacePow` takes from `"2^3^4"`: the last pair. */
  lemma ChainedPowerPieces(s: string)
    requires s == "2^3^4"
    ensures '^' in s
    ensures ChosenOperands(s, '^', PowSeparators, true) == Ok(Operands("3", "4"))
  {
    ChainedPowerSplit(s);
    assert '^' in s by { assert s[1] == '^'; }
    assert FirstContaining([s], '^') == 0;
    assert OperandPieces(s, '^', PowSeparators) == Some(["2", "3", "4"]);
  }

  lemma ChainedPowerReplace(s: string, key: char)
    requires s == "2^3^4"
    ensures ReplaceFirst(s, "3" + "^" + "4", [key]) == "2^" + [key]
  {
    var pat := "3" + "^" + "4";
    assert pat == "3^4";
    forall k | 0 <= k < 2
      ensures !OccursAt(s, pat, k)
    {
      assert s[k..k + 3][0] == s[k];
    }
    ReplaceFirstAt(s, pat, [key], 2);
  }

  /** `replacePow` binds the rightmost pair of a chain first. */
  lemma ChainedPower(s: string, ctx: Context)
    requires s == "2^3^4" && ctx.next < LastKey
    ensures PowStep(s, ctx).Ok?
    ensures PowStep(s, ctx).value.text == "2^" + [ctx.next]
  {
    ChainedPowerPieces(s);
    ChainedPowerReplace(s, ctx.next);
    PowStepReplaces(s, ctx, "3", "4", "2^" + [ctx.next]);
  }

  /** How `replacePow` cuts `"3^2^3^2"`: one segment, then its `^` pieces. */
  lemma RepeatedPowerSplit(s: string)
    requires s == "3^2^3^2"
    ensures JavaSplit(s, PowSeparators) == [s]
    ensures JavaSplit(s, {'^'}) == ["3", "2", "3", "2"]
  {
    PiecesWhole(s, PowSeparators);
    PiecesWhole("2", {'^'});
    PiecesCut("3^2", {'^'}, 1, "3", "2");
    PiecesCut("2^3^2", {'^'}, 1, "2", "3^2");
    PiecesCut(s, {'^'}, 1, "3", "2^3^2");
    assert FindFirst(s, {'^'}, 0) == 1;
  }

  /** The operands `replacePow` takes from `"3^2^3^2"`: the last pair. */
  lemma RepeatedPowerPieces(s: string)
    requires s == "3^2^3^2"
    ensures '^' in s
    ensures ChosenOperands(s, '^', PowSeparators, true) == Ok(Operands("3", "2"))
  {
    RepeatedPowerSplit(s);
    assert '^' in s by { assert s[1] == '^'; }
    assert FirstContaining([s], '^') == 0;
    assert OperandPieces(s, '^', PowSeparators) == Some(["3", "2", "3", "2"]);
  }

  lemma RepeatedPowerReplace(s: string, key: char)
    requires s == "3^2^3^2"
    ensures ReplaceFirst(s, "3" + "^" + "2", [key]) == [key] + "^3^2"
  {
    var pat := "3" + "^" + "2";
    assert pat == "3^2";
    ReplaceFirstAt(s, pat, [key], 0);
    assert s[..0] + [key] + s[3..] == [key] + "^3^2";
  }

  /** When the rightmost pair also occurs further left, the first-occurrence
      replacement rewrites the leftmost copy: the key bound to the last pair
      of `"3^2^3^2"` takes the place of the first `3^2`. */
  lemma RepeatedPower(s: string, ctx: Context)
    requires s == "3^2^3^2" && ctx.next < LastKey
    ensures PowStep(s, ctx).Ok?
    ensures PowStep(s, ctx).value.text == [ctx.next] + "^3^2"
  {
    RepeatedPowerPieces(s);
    RepeatedPowerReplace(s, ctx.next);
    PowStepReplaces(s, ctx, "3", "2", [ctx.next] + "^3^2");
  }

}

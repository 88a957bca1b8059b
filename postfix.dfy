/** The second half of `infixToPostfix`: after the conversion has folded
    every operator into a binding, keys are replaced by their bound text,
    one at a time and leftmost first, until none is left.
 */
module Postfix {
  import opened Outcomes
  import opened Text
  import opened Keys
  import opened Steps
  import opened Passes
  import opened InputFormat

  /** The index of the first key at or after `from`, or `|s|`. */
  function FirstKeyIndex(s: string, from: nat): (i: nat)
    requires from <= |s|
    ensures from <= i <= |s|
    ensures i < |s| ==> IsKey(s[i])
    ensures forall j :: from <= j < i ==> !IsKey(s[j])
    decreases |s| - from
  {
    if from == |s| || IsKey(s[from]) then from else FirstKeyIndex(s, from + 1)
  }

  /** `replaceOneKeytoExp`: the first character from U+00C0 upwards is
      replaced by its binding; an unbound one makes `hashMap.get` return
      `null`, which `replaceFirst` rejects. */
  function ExpandFirstKey(s: string, t: map<char, string>): (r: Outcome<string>)
    ensures (forall c | c in s :: !IsKey(c)) ==> r == Ok(s)
  {
    var i := FirstKeyIndex(s, 0);
    if i == |s| then Ok(s)
    else if s[i] !in t then Fault(NullDereference)
    else Ok(ReplaceFirst(s, [s[i]], t[s[i]]))
  }

  /** `replaceOneKeytoExp`, scanning for the first key as the Java `for`
      loop does. */
  method ReplaceOneKeyToExp(s: string, t: map<char, string>) returns (r: Outcome<string>)
    ensures r == ExpandFirstKey(s, t)
  {
    for i := 0 to |s|
      invariant forall j :: 0 <= j < i ==> !IsKey(s[j])
    {
      if IsKey(s[i]) {
        assert FirstKeyIndex(s, 0) == i;
        if s[i] !in t {
          return Fault(NullDereference);
        }
        return Ok(ReplaceFirst(s, [s[i]], t[s[i]]));
      }
    }
    assert FirstKeyIndex(s, 0) == |s|;
    return Ok(s);
  }

  /** Replacing one bound key by its text keeps the full expansion. */
  lemma {:induction false} ExpandSplice(t: map<char, string>, pre: string, k: char, post: string, bound: char)
    requires TableOk(t) && KeysIn(pre + [k] + post, t, bound) && IsKey(k)
    ensures KeysIn(pre + t[k] + post, t, bound)
    ensures Expanded(t, pre + t[k] + post, bound) == Expanded(t, pre + [k] + post, bound)
  {
    var s := pre + [k] + post;
    assert k in s;
    var body := t[k];
    assert forall c | c in pre || c in post :: c in s;
    assert KeysIn(body, t, k);
    ExpandedBound(t, body, k, bound);
    assert Expanded(t, [k], bound) == Expanded(t, body, bound) by {
      assert [k][1..] == [];
    }
    ExpandedConcat(t, pre, [k], bound);
    ExpandedConcat(t, pre + [k], post, bound);
    ExpandedConcat(t, pre, body, bound);
    ExpandedConcat(t, pre + body, post, bound);
  }

  /** On a string that holds a key, the first key is the one replaced. */
  lemma FirstKeyReplaced(s: string, t: map<char, string>) returns (i: nat)
    requires exists c | c in s :: IsKey(c)
    requires s[FirstKeyIndex(s, 0)] in t || FirstKeyIndex(s, 0) == |s|
    ensures i == FirstKeyIndex(s, 0) && i < |s| && IsKey(s[i])
    ensures ExpandFirstKey(s, t) == Ok(s[..i] + t[s[i]] + s[i + 1..])
  {
    i := FirstKeyIndex(s, 0);
    var c :| c in s && IsKey(c);
    var j :| 0 <= j < |s| && s[j] == c;
    assert i <= j;
    var k := s[i];
    forall j | 0 <= j < i
      ensures !OccursAt(s, [k], j)
    {
      assert !IsKey(s[j]);
    }
    assert s[i..i + 1] == [k];
    ReplaceFirstAt(s, [k], t[k], i);
  }

  /** On a well-bound string that still holds a key, one expansion step
      succeeds, lengthens the string and keeps its full expansion. */
  lemma OneKeyStep(s: string, t: map<char, string>, bound: char)
    requires TableOk(t) && KeysIn(s, t, bound)
    requires exists c | c in s :: IsKey(c)
    ensures var r := ExpandFirstKey(s, t);
      r.Ok? && |r.value| > |s| && KeysIn(r.value, t, bound)
      && Expanded(t, r.value, bound) == Expanded(t, s, bound)
  {
    var i0 := FirstKeyIndex(s, 0);
    assert i0 < |s| ==> s[i0] in s;
    var i := FirstKeyReplaced(s, t);
    var k := s[i];
    assert s == s[..i] + [k] + s[i + 1..];
    ExpandSplice(t, s[..i], k, s[i + 1..], bound);
  }

  /** On a well-bound string the expansion step leaves the string as it is
      exactly when no key is left, so the loop of `infixToPostfix` stops
      exactly then. */
  lemma ExpansionStopsIff(s: string, t: map<char, string>, bound: char)
    requires TableOk(t) && KeysIn(s, t, bound)
    ensures ExpandFirstKey(s, t).Ok?
    ensures ExpandFirstKey(s, t) == Ok(s) <==> forall c | c in s :: !IsKey(c)
  {
    if exists c | c in s :: IsKey(c) {
      OneKeyStep(s, t, bound);
    }
  }

  /** The expansion loop of `infixToPostfix`: `replaceOneKeytoExp` until the
      string stops changing. The result is the full expansion of the input
      and holds no key. */
  method ExpandKeys(s: string, ctx: Context) returns (out: string)
    requires WellBound(s, ctx)
    ensures out == Expanded(ctx.table, s, ctx.next)
    ensures forall c | c in out :: !IsKey(c)
  {
    var t, bound := ctx.table, ctx.next;
    var input := s;
    ExpandedLength(t, s, bound);
    while true
      invariant KeysIn(input, t, bound)
      invariant Expanded(t, input, bound) == Expanded(t, s, bound)
      decreases |Expanded(t, s, bound)| - |input|
    {
      ExpandedLength(t, input, bound);
      var output := ReplaceOneKeyToExp(input, t);
      ExpansionStopsIff(input, t, bound);
      if exists c | c in input :: IsKey(c) {
        OneKeyStep(input, t, bound);
      }
      if output.value == input {
        break;
      }
      input := output.value;
    }
    ExpandedPlain(t, input, bound);
    out := input;
  }

  /** An accepted line holds no key character, so it is well bound in a
      fresh context. */
  lemma AcceptedWellBound(input: string)
    requires Accepted(input)
    ensures WellBound(StripWhitespace(input), Fresh())
  {
    var t := StripWhitespace(input);
    forall c | c in t
      ensures !IsKey(c)
    {
      assert IsAllowed(c);
    }
  }

  /** The postfix text of an accepted line: the conversion, run in a fresh
      context, followed by full expansion of the keys it leaves. */
  function PostfixOf(input: string): (r: Outcome<string>)
    requires Accepted(input)
    ensures r.Malformed? <==> Convert(StripWhitespace(input), Fresh()).Malformed?
    ensures r.Ok? ==> forall c | c in r.value :: !IsKey(c)
  {
    var t := StripWhitespace(input);
    AcceptedWellBound(input);
    var conv :- Convert(t, Fresh());
    ExpandedKeyFree(conv.ctx.table, conv.text, conv.ctx.next);
    Ok(Expanded(conv.ctx.table, conv.text, conv.ctx.next))
  }

  /** `infixToPostfix`: strip whitespace, convert, then expand keys. The
      context is created here, so nothing carries over between lines. */
  method InfixToPostfix(input: string) returns (r: Outcome<string>)
    requires Accepted(input)
    ensures r == PostfixOf(input)
    ensures r != Fault(Diverges)
  {
    var s := StripWhitespace(input);
    AcceptedWellBound(input);
    var conv := ReplaceAllOperatorsWithKeys(s, Fresh());
    if !conv.Ok? {
      return conv.PropagateFailure();
    }
    var out := ExpandKeys(conv.value.text, conv.value.ctx);
    return Ok(out);
  }
}

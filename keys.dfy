/** Placeholder keys and the binding table.

    The Java class keeps a static `HashMap<String, String>` and a key
    character that starts at U+00C0 and is incremented after every binding;
    `main` resets both after each line. Here they are one `Context` value,
    created fresh for each expression and threaded through the calls.
 */
module Keys {
  import opened Outcomes

  /** The first key, U+00C0 (`sFinalKeyChar`). */
  const FirstKey: char := '\U{C0}'

  /** One past the last key the model hands out. Java's counter runs on into
      the surrogate range, which Dafny's `char` excludes. */
  const LastKey: char := '\U{D7FF}'

  /** Every character from U+00C0 upwards is read as a key by the expansion. */
  predicate IsKey(c: char) {
    c >= FirstKey
  }

  /** The characters the counter can hold. */
  type KeyChar = c: char | FirstKey <= c <= LastKey witness FirstKey

  datatype Context = Context(table: map<char, string>, next: KeyChar)

  /** The state at the start of a line. */
  function Fresh(): (ctx: Context)
    ensures ctx.table == map[] && ctx.next == FirstKey
  {
    Context(map[], FirstKey)
  }

  /** How many more bindings the context can take. */
  function KeysLeft(ctx: Context): nat
  {
    LastKey as int - ctx.next as int
  }

  /** `hashMap.put(sHashmapKeyStr, text)` followed by `++sHashmapKeyChar`. */
  function Bind(ctx: Context, text: string): (r: Outcome<Context>)
    ensures r.Ok? <==> ctx.next < LastKey
    ensures r.Ok? ==> r.value.table == ctx.table[ctx.next := text]
    ensures r.Ok? ==> r.value.next as int == ctx.next as int + 1
    ensures r.Ok? ==> KeysLeft(r.value) < KeysLeft(ctx)
    ensures !r.Ok? ==> r == Fault(OutOfKeys)
  {
    if ctx.next < LastKey then Ok(Context(ctx.table[ctx.next := text], (ctx.next as int + 1) as char))
    else Fault(OutOfKeys)
  }

  /** Every key in `s` is bound in `t` and lies below `bound`. */
  predicate KeysIn(s: string, t: map<char, string>, bound: char) {
    forall c | c in s && IsKey(c) :: c in t && c < bound
  }

  /** Every bound text is at least two characters long and mentions only keys
      that were handed out before its own. */
  predicate TableOk(t: map<char, string>) {
    forall k | k in t :: IsKey(k) && |t[k]| >= 2 && KeysIn(t[k], t, k)
  }

  /** The counter is above every key in the table. */
  predicate ContextOk(ctx: Context) {
    TableOk(ctx.table) && forall k | k in ctx.table :: k < ctx.next
  }

  /** The working string and the context agree: no dangling key. */
  predicate WellBound(s: string, ctx: Context) {
    ContextOk(ctx) && KeysIn(s, ctx.table, ctx.next)
  }

  /** `ctx'` is `ctx` with bindings added under new keys only: existing
      bindings are never overwritten and the counter never goes back. */
  predicate Extends(ctx: Context, ctx': Context) {
    ctx.next <= ctx'.next
    && (forall k | k in ctx.table :: k in ctx'.table && ctx'.table[k] == ctx.table[k])
    && (forall k | k in ctx'.table && k !in ctx.table :: ctx.next <= k < ctx'.next)
  }

  lemma ExtendsTransitive(a: Context, b: Context, c: Context)
    requires Extends(a, b) && Extends(b, c) && ContextOk(a)
    ensures Extends(a, c)
  {
  }

  /** One binding added to a well-bound context: the new key is fresh, and
      text whose keys were bound stays well bound. */
  lemma {:induction false} BindKeepsWellBound(ctx: Context, text: string, s: string)
    requires ContextOk(ctx) && |text| >= 2 && KeysIn(text, ctx.table, ctx.next)
    requires Bind(ctx, text).Ok?
    requires forall c | c in s && IsKey(c) :: c == ctx.next || (c in ctx.table && c < ctx.next)
    ensures var ctx' := Bind(ctx, text).value;
      ctx.next !in ctx.table && Extends(ctx, ctx') && WellBound(s, ctx')
  {
    var ctx' := Bind(ctx, text).value;
    forall k | k in ctx'.table
      ensures IsKey(k) && |ctx'.table[k]| >= 2 && KeysIn(ctx'.table[k], ctx'.table, k)
    {
      if k != ctx.next {
        assert KeysIn(ctx.table[k], ctx.table, k);
      }
    }
  }

  /** A string that was well bound stays so in a context that extends its own. */
  lemma KeysInExtends(s: string, ctx: Context, ctx': Context)
    requires KeysIn(s, ctx.table, ctx.next) && Extends(ctx, ctx')
    ensures KeysIn(s, ctx'.table, ctx'.next)
  {
  }

  /** The fully expanded text of `s`: every key replaced, recursively, by
      the text bound to it. */
  function Expanded(t: map<char, string>, s: string, bound: char): (r: string)
    requires TableOk(t) && KeysIn(s, t, bound)
    decreases bound, |s|
  {
    if s == [] then []
    else
      assert s[0] in s;
      assert forall c | c in s[1..] :: c in s;
      var head := if IsKey(s[0]) then Expanded(t, t[s[0]], s[0]) else [s[0]];
      head + Expanded(t, s[1..], bound)
  }

  /** The full expansion holds no key. */
  lemma {:induction false} ExpandedKeyFree(t: map<char, string>, s: string, bound: char)
    requires TableOk(t) && KeysIn(s, t, bound)
    ensures forall c | c in Expanded(t, s, bound) :: !IsKey(c)
    decreases bound, |s|
  {
    if s != [] {
      assert s[0] in s;
      assert forall c | c in s[1..] :: c in s;
      if IsKey(s[0]) {
        ExpandedKeyFree(t, t[s[0]], s[0]);
      }
      ExpandedKeyFree(t, s[1..], bound);
    }
  }

  /** Expansion does not depend on the bound used to justify it. */
  lemma {:induction false} ExpandedBound(t: map<char, string>, s: string, b1: char, b2: char)
    requires TableOk(t) && KeysIn(s, t, b1) && KeysIn(s, t, b2)
    ensures Expanded(t, s, b1) == Expanded(t, s, b2)
    decreases |s|
  {
    if s != [] {
      assert forall c | c in s[1..] :: c in s;
      ExpandedBound(t, s[1..], b1, b2);
    }
  }

  /** The first character of a string expands on its own. */
  lemma ExpandedUnfold(t: map<char, string>, s: string, bound: char)
    requires TableOk(t) && KeysIn(s, t, bound) && s != []
    ensures KeysIn([s[0]], t, bound) && KeysIn(s[1..], t, bound)
    ensures Expanded(t, s, bound) == Expanded(t, [s[0]], bound) + Expanded(t, s[1..], bound)
  {
    assert s[0] in s;
    assert forall c | c in s[1..] :: c in s;
    var head := if IsKey(s[0]) then Expanded(t, t[s[0]], s[0]) else [s[0]];
    assert Expanded(t, s, bound) == head + Expanded(t, s[1..], bound);
    ExpandedSingle(t, s[0], bound);
  }

  /** A single character expands to its binding's expansion, or to itself. */
  lemma ExpandedSingle(t: map<char, string>, c: char, bound: char)
    requires TableOk(t) && KeysIn([c], t, bound)
    ensures IsKey(c) ==> c in t && KeysIn(t[c], t, c)
    ensures Expanded(t, [c], bound) == if IsKey(c) then Expanded(t, t[c], c) else [c]
  {
    assert c in [c];
    assert [c][1..] == [];
  }

  /** Dropping the first character of a concatenation. */
  lemma ConcatTail(a: string, b: string)
    requires a != []
    ensures (a + b)[0] == a[0] && (a + b)[1..] == a[1..] + b
  {
  }

  lemma ConcatAssoc(x: string, y: string, z: string)
    ensures x + (y + z) == (x + y) + z
  {
  }

  /** Expansion distributes over concatenation. */
  lemma {:induction false} ExpandedConcat(t: map<char, string>, a: string, b: string, bound: char)
    requires TableOk(t) && KeysIn(a, t, bound) && KeysIn(b, t, bound)
    ensures KeysIn(a + b, t, bound)
    ensures Expanded(t, a + b, bound) == Expanded(t, a, bound) + Expanded(t, b, bound)
    decreases |a|
  {
    assert forall c | c in a + b :: c in a || c in b;
    if a != [] {
      ExpandedUnfold(t, a, bound);
      ExpandedUnfold(t, a + b, bound);
      ConcatTail(a, b);
      ExpandedConcat(t, a[1..], b, bound);
      ConcatAssoc(Expanded(t, [a[0]], bound), Expanded(t, a[1..], bound), Expanded(t, b, bound));
    } else {
      assert a + b == b;
    }
  }

  /** A string without keys expands to itself. */
  lemma {:induction false} ExpandedPlain(t: map<char, string>, s: string, bound: char)
    requires TableOk(t) && forall c | c in s :: !IsKey(c)
    ensures KeysIn(s, t, bound) && Expanded(t, s, bound) == s
    decreases |s|
  {
    if s != [] {
      assert s[0] in s;
      assert forall c | c in s[1..] :: c in s;
      ExpandedPlain(t, s[1..], bound);
    }
  }

  /** Every character expands to at least one character, and a key to at
      least two. */
  lemma {:induction false} ExpandedLength(t: map<char, string>, s: string, bound: char)
    requires TableOk(t) && KeysIn(s, t, bound)
    ensures |Expanded(t, s, bound)| >= |s|
    decreases bound, |s|
  {
    if s != [] {
      assert s[0] in s;
      assert forall c | c in s[1..] :: c in s;
      if IsKey(s[0]) {
        ExpandedLength(t, t[s[0]], s[0]);
      }
      ExpandedLength(t, s[1..], bound);
    }
  }
}

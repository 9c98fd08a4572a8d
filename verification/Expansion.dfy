/** Expansion of `${NAME}` references: what is left over, and why a second pass changes nothing. */
module Expansion {
  import opened Wrappers
  import opened Names
  import opened FlatStore

  /** Every reference left in the text names a variable without a value. */
  ghost predicate Settled(st: Store, t: Text)
    requires Readable(st)
  {
    forall k <- Refs(t) :: Value(st, k).None?
  }

  lemma RefsConcat(a: Text, b: Text)
    ensures Refs(a + b) == Refs(a) + Refs(b)
  {
    forall k | k in Refs(a) + Refs(b) ensures k in Refs(a + b) {
      assert Ref(k) in a + b;
    }
    forall k | k in Refs(a + b) ensures k in Refs(a) + Refs(b) {
      assert Ref(k) in a || Ref(k) in b;
    }
  }

  lemma RefsSingle(tok: Token)
    ensures Refs([tok]) == if tok.Ref? then {tok.name} else {}
  {
    if tok.Ref? {
      assert tok in [tok];
    }
  }

  /** The replacement of one token. */
  ghost function ExpandToken(st: Store, tok: Token): Text
    requires Readable(st)
  {
    if tok.Ref? && Value(st, tok.name).Some? then Value(st, tok.name).value else [tok]
  }

  lemma ExpandHead(st: Store, t: Text)
    requires Readable(st) && t != []
    ensures Expand(st, t) == ExpandToken(st, t[0]) + Expand(st, t[1..])
  {}

  lemma {:induction false} ExpandConcat(st: Store, a: Text, b: Text)
    requires Readable(st)
    ensures Expand(st, a + b) == Expand(st, a) + Expand(st, b)
    decreases |a|
  {
    hide Value, Top, Acyclic, WellIndexed, PlainOverrides;
    if a == [] {
      assert a + b == b;
    } else {
      assert (a + b)[1..] == a[1..] + b;
      ExpandConcat(st, a[1..], b);
      ExpandHead(st, a);
      ExpandHead(st, a + b);
    }
  }

  lemma ExpandNext(st: Store, t: Text, i: nat)
    requires Readable(st) && i < |t|
    ensures Expand(st, t[..i + 1]) == Expand(st, t[..i]) + ExpandToken(st, t[i])
  {
    assert t[..i + 1] == t[..i] + [t[i]];
    ExpandConcat(st, t[..i], [t[i]]);
    ExpandHead(st, [t[i]]);
  }

  /** The references that survive are valueless, and rank below the text's own references. */
  lemma {:induction false} ExpandSettles(st: Store, t: Text)
    requires Readable(st)
    ensures Settled(st, Expand(st, t))
    ensures Top(st, Expand(st, t)) <= Top(st, t)
    decreases Top(st, t), 1, |t|
  {
    if t != [] {
      TopSub(st, t[1..], t);
      ExpandSettles(st, t[1..]);
      var head := ExpandToken(st, t[0]);
      ExpandHead(st, t);
      RefsConcat(head, Expand(st, t[1..]));
      RefsSingle(t[0]);
      if t[0].Ref? {
        assert t[0].name in Refs(t);
        ValueSettles(st, t[0].name);
      }
      TopWithin(st, Expand(st, t), Top(st, t));
    }
  }

  lemma {:induction false} ValueSettles(st: Store, x: Name)
    requires Readable(st)
    ensures var v := Value(st, x); v.Some? ==> Settled(st, v.value) && Top(st, v.value) <= Rank(st)(x)
    decreases Rank(st)(x), 2, 0
  {
    var raw := Raw(st, x, true);
    if raw.Some? {
      TopOfRaw(st, x);
      ExpandSettles(st, raw.value);
    }
  }

  lemma {:induction false} SettledIsFixed(st: Store, t: Text)
    requires Readable(st) && Settled(st, t)
    ensures Expand(st, t) == t
    decreases |t|
  {
    if t != [] {
      RefsConcat([t[0]], t[1..]);
      RefsSingle(t[0]);
      assert t == [t[0]] + t[1..];
      SettledIsFixed(st, t[1..]);
      ExpandHead(st, t);
    }
  }

  /** Expansion is idempotent, and exactly the valueless references remain as they were. */
  lemma ExpandTwice(st: Store, t: Text)
    requires Readable(st)
    ensures Expand(st, Expand(st, t)) == Expand(st, t)
    ensures forall k <- Refs(Expand(st, t)) :: Value(st, k).None?
    ensures forall k <- Refs(t) :: Value(st, k).None? ==> k in Refs(Expand(st, t))
  {
    hide Expand, Value, Top, Acyclic, WellIndexed, PlainOverrides;
    ExpandSettles(st, t);
    SettledIsFixed(st, Expand(st, t));
    forall k | k in Refs(t) && Value(st, k).None?
      ensures k in Refs(Expand(st, t))
    {
      RefStays(st, t, k);
    }
  }

  lemma {:induction false} RefStays(st: Store, t: Text, k: Name)
    requires Readable(st) && k in Refs(t) && Value(st, k).None?
    ensures k in Refs(Expand(st, t))
    decreases |t|
  {
    hide Value, Top, Acyclic, WellIndexed, PlainOverrides;
    assert t == [t[0]] + t[1..];
    ExpandHead(st, t);
    RefsConcat([t[0]], t[1..]);
    RefsConcat(ExpandToken(st, t[0]), Expand(st, t[1..]));
    RefsSingle(t[0]);
    if t[0] != Ref(k) {
      RefStays(st, t[1..], k);
    }
  }

  /** Text without references is its own expansion. */
  lemma LiteralIsFixed(st: Store, t: Text)
    requires Readable(st) && Literal(t)
    ensures Expand(st, t) == t
  {
    SettledIsFixed(st, t);
  }

  /** A reference is replaced by the variable's value, wherever it stands; without a value it stays. */
  lemma RefIsReplaced(st: Store, a: Text, k: Name, b: Text)
    requires Readable(st)
    ensures Expand(st, a + [Ref(k)] + b) ==
            Expand(st, a) + (match Value(st, k) { case Some(v) => v case None => [Ref(k)] }) + Expand(st, b)
  {
    hide Value, Top, Acyclic, WellIndexed, PlainOverrides;
    ExpandConcat(st, a + [Ref(k)], b);
    ExpandConcat(st, a, [Ref(k)]);
    ExpandHead(st, [Ref(k)]);
    NothingExpands(st);
    assert [Ref(k)][1..] == [];
  }

  lemma NothingExpands(st: Store)
    requires Readable(st)
    ensures Expand(st, []) == []
  {}

  /** A variable whose value has no references means that value; without a value it means nothing. */
  lemma LiteralValue(st: Store, k: Name)
    requires Readable(st)
    ensures var v := Raw(st, k, true);
            match v { case Some(t) => Literal(t) ==> Value(st, k) == v case None => Value(st, k) == None }
  {
    var v := Raw(st, k, true);
    if v.Some? && Literal(v.value) {
      LiteralIsFixed(st, v.value);
    }
  }
}

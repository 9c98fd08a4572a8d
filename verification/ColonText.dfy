/** Text that colons cut into parts: cutting it, counting the colons, and gluing it together again. */
module ColonText {
  function Glue(a: string, b: string): string {
    a + ":" + b
  }

  predicate StartsWith(s: string, prefix: string) {
    |prefix| <= |s| && s[..|prefix|] == prefix
  }

  function Colons(s: string): nat {
    if s == [] then 0 else (if s[0] == ':' then 1 else 0) + Colons(s[1..])
  }

  /** The text before the first colon, and all the text when there is none. */
  function Head(s: string): (h: string)
    ensures ':' !in h && StartsWith(s, h)
    ensures h == s || (|h| < |s| && s[|h|] == ':')
  {
    if s == [] || s[0] == ':' then [] else [s[0]] + Head(s[1..])
  }

  /** The text after the first colon. */
  function Tail(s: string): string {
    if Head(s) == s then "" else s[|Head(s)| + 1..]
  }

  /** str.split(':') */
  function Split(s: string): (parts: seq<string>)
    ensures |parts| == Colons(s) + 1 && parts[0] == Head(s) && forall i :: 0 <= i < |parts| ==> ':' !in parts[i]
  {
    HeadAndTail(s);
    if Head(s) == s then [s] else [Head(s)] + Split(Tail(s))
  }

  /** ":".join(parts) */
  function Join(parts: seq<string>): string {
    if parts == [] then "" else if |parts| == 1 then parts[0] else Glue(parts[0], Join(parts[1..]))
  }

  lemma {:induction false} ColonsConcat(a: string, b: string)
    ensures Colons(a + b) == Colons(a) + Colons(b)
  {
    if a == [] {
      assert a + b == b;
    } else {
      assert (a + b)[1..] == a[1..] + b;
      ColonsConcat(a[1..], b);
    }
  }

  lemma {:induction false} SomeColon(s: string)
    ensures Colons(s) > 0 <==> ':' in s
  {
    if s != [] {
      assert s == [s[0]] + s[1..];
      SomeColon(s[1..]);
    }
  }

  lemma GlueColons(a: string, b: string)
    ensures Colons(Glue(a, b)) == Colons(a) + 1 + Colons(b) && ':' in Glue(a, b)
    ensures |Glue(a, b)| == |a| + 1 + |b|
  {
    assert Colons(":") == 1 by { assert ":"[1..] == []; }
    ColonsConcat(a, ":");
    ColonsConcat(a + ":", b);
    assert Glue(a, b)[|a|] == ':';
  }

  lemma HeadAndTail(s: string)
    ensures if ':' in s then Head(s) != s && s == Glue(Head(s), Tail(s)) && Colons(s) == 1 + Colons(Tail(s))
            else Head(s) == s && Colons(s) == 0
  {
    SomeColon(s);
    SomeColon(Head(s));
    if Head(s) != s {
      assert s == Glue(Head(s), Tail(s));
      GlueColons(Head(s), Tail(s));
    }
  }

  lemma GlueParts(a: string, b: string)
    requires ':' !in a
    ensures Head(Glue(a, b)) == a && Tail(Glue(a, b)) == b
  {
    var s, h := Glue(a, b), Head(Glue(a, b));
    assert s[|a|] == ':' && forall i :: 0 <= i < |a| ==> s[i] == a[i];
    assert forall i :: 0 <= i < |h| ==> h[i] == s[i] && h[i] in h;
    assert |h| == |a|;
  }

  lemma GlueAssoc(a: string, b: string, c: string)
    ensures Glue(Glue(a, b), c) == Glue(a, Glue(b, c))
  {}

  lemma GlueSame(a: string, b: string, c: string)
    ensures Glue(a, b) == Glue(a, c) <==> b == c
  {
    assert Glue(a, b)[|a| + 1..] == b && Glue(a, c)[|a| + 1..] == c;
  }

  lemma SplitStep(s: string)
    ensures Split(s) == if ':' in s then [Head(s)] + Split(Tail(s)) else [s]
  {
    HeadAndTail(s);
  }

  lemma {:induction false} SplitGlue(a: string, b: string)
    ensures Split(Glue(a, b)) == Split(a) + Split(b)
    decreases |a|
  {
    hide Glue, Colons, Split, Head, Tail;
    SplitStep(a);
    SplitStep(Glue(a, b));
    GlueColons(a, b);
    if ':' in a {
      HeadAndTail(a);
      GlueColons(Head(a), Tail(a));
      GlueAssoc(Head(a), Tail(a), b);
      GlueParts(Head(a), Glue(Tail(a), b));
      SplitGlue(Tail(a), b);
    } else {
      GlueParts(a, b);
    }
  }

  lemma {:induction false} JoinSplit(s: string)
    ensures Join(Split(s)) == s
    decreases |s|
  {
    HeadAndTail(s);
    if Head(s) != s {
      JoinSplit(Tail(s));
    }
  }

  lemma {:induction false} JoinLast(parts: seq<string>)
    requires |parts| > 1
    ensures Join(parts) == Glue(Join(parts[..|parts| - 1]), parts[|parts| - 1])
  {
    hide Glue;
    if |parts| > 2 {
      JoinLast(parts[1..]);
      assert parts[1..][..|parts| - 2] == parts[..|parts| - 1][1..];
      GlueAssoc(parts[0], Join(parts[1..][..|parts| - 2]), parts[|parts| - 1]);
    } else {
      assert parts[1..] == [parts[1]] && parts[..1] == [parts[0]];
    }
  }

  lemma {:induction false} PartsFit(s: string)
    ensures forall i :: 0 <= i < |Split(s)| ==> |Split(s)[i]| <= |s|
    decreases |s|
  {
    if Head(s) != s {
      PartsFit(Tail(s));
    }
  }
}

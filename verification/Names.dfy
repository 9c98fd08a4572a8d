/**
  Variable names of the datastore.

  A name such as `FOO:append:arm` is modelled by its colon-separated components
  `["FOO", "append", "arm"]`; an override suffix is such a sequence as well.  The components
  themselves contain no colon, so the sequence and the text determine each other.
 */
module Names {
  import opened Wrappers

  type Comp = string
  type Name = seq<Comp>

  const OVERRIDES: Name := ["OVERRIDES"]
  const FILE: Name := ["FILE"]

  /** `__override_regexp__.match`: the text starts with a lower-case letter or a digit. */
  predicate IsOverrideComp(c: Comp) {
    c != "" && ('a' <= c[0] <= 'z' || '0' <= c[0] <= '9')
  }

  /** Only the first character counts. */
  lemma OverrideCompBounds()
    ensures IsOverrideComp("a") && IsOverrideComp("z") && IsOverrideComp("0") && IsOverrideComp("9") && IsOverrideComp("aB_")
    ensures !IsOverrideComp("") && !IsOverrideComp("A") && !IsOverrideComp("Z") && !IsOverrideComp("_a")
    ensures !IsOverrideComp("/") && !IsOverrideComp(":") && !IsOverrideComp("-0")
  {}

  /** The length of the name's text, counting one separator per component. */
  function TextLength(n: Name): nat {
    if n == [] then 0 else |n[0]| + 1 + TextLength(n[1..])
  }

  lemma {:induction false} TextLengthConcat(a: Name, b: Name)
    ensures TextLength(a + b) == TextLength(a) + TextLength(b)
  {
    if a == [] {
      assert a + b == b;
    } else {
      assert (a + b)[1..] == a[1..] + b;
      TextLengthConcat(a[1..], b);
    }
  }

  // ----- operations in variable names -----

  datatype Kind = Append | Prepend | Remove

  function KeywordOf(c: Comp): Option<Kind> {
    match c
    case "append" => Some(Append)
    case "prepend" => Some(Prepend)
    case "remove" => Some(Remove)
    case _ => None
  }

  predicate NoUpper(n: Name) {
    forall c <- n :: forall ch <- c :: !('A' <= ch <= 'Z')
  }

  /** What `__setvar_regexp__` finds in a name: `base:keyword` or `base:keyword:over`. */
  datatype Keyword = Keyword(base: Name, kind: Kind, over: Name)

  /** The leftmost match at component `i` or later; an empty `add` group counts as none. */
  function KeywordFrom(x: Name, i: nat): Option<Keyword>
    requires 1 <= i
    decreases |x| - i
  {
    if i >= |x| then None
    else
      var k := KeywordOf(x[i]);
      if k.Some? && NoUpper(x[i + 1..])
      then Some(Keyword(x[..i], k.value, if x[i + 1..] == [""] then [] else x[i + 1..]))
      else KeywordFrom(x, i + 1)
  }

  function ParseKeyword(x: Name): Option<Keyword> {
    KeywordFrom(x, 1)
  }

  /** No component of `v` can be read as an operation when `:append` or `:prepend` follows. */
  predicate NoOperation(v: Name) {
    v != [] && forall i :: 1 <= i < |v| && KeywordOf(v[i]).Some? ==> !NoUpper(v[i + 1..])
  }

  lemma NoUpperPrefix(a: Name, b: Name)
    requires NoUpper(a + b)
    ensures NoUpper(a)
  {
    forall c | c in a ensures forall ch <- c :: !('A' <= ch <= 'Z') {
      assert c in a + b;
    }
  }

  lemma KeywordHere(x: Name, i: nat)
    requires 1 <= i < |x| && KeywordOf(x[i]).Some? && NoUpper(x[i + 1..])
    ensures KeywordFrom(x, i) == Some(Keyword(x[..i], KeywordOf(x[i]).value, if x[i + 1..] == [""] then [] else x[i + 1..]))
  {}

  /** After such a name the operation is found, and all that follows is its condition. */
  lemma {:induction false} KeywordFromSuffix(v: Name, c: Comp, over: Name, i: nat)
    requires NoOperation(v) && 1 <= i <= |v|
    requires KeywordOf(c).Some? && NoUpper(over)
    ensures KeywordFrom(v + [c] + over, i) == Some(Keyword(v, KeywordOf(c).value, if over == [""] then [] else over))
    decreases |v| - i
  {
    var x := v + [c] + over;
    if i == |v| {
      hide NoUpper, KeywordOf, KeywordFrom, NoOperation;
      assert x[..i] == v && x[i] == c && x[i + 1..] == over;
      KeywordHere(x, i);
    } else {
      SuffixComesLater(v, c, over, i);
      hide NoUpper, KeywordOf, NoOperation;
      KeywordFromSuffix(v, c, over, i + 1);
    }
  }

  lemma SuffixComesLater(v: Name, c: Comp, over: Name, i: nat)
    requires NoOperation(v) && 1 <= i < |v|
    ensures var x := v + [c] + over; !(KeywordOf(x[i]).Some? && NoUpper(x[i + 1..]))
  {
    hide KeywordOf;
    var x := v + [c] + over;
    assert x[i] == v[i] && x[i + 1..] == v[i + 1..] + ([c] + over);
    if NoUpper(x[i + 1..]) {
      NoUpperPrefix(v[i + 1..], [c] + over);
    }
  }

  /** At component `i` there is an operation, and no capital letter after it. */
  ghost predicate OperationAt(x: Name, i: nat) {
    && 1 <= i < |x| && x[i] in {"append", "prepend", "remove"}
    && forall j, m :: i < j < |x| && 0 <= m < |x[j]| ==> x[j][m] < 'A' || x[j][m] > 'Z'
  }

  /** The operation at component `i`, with what comes before and after it. */
  ghost predicate IsOperation(x: Name, i: nat, kw: Keyword) {
    && OperationAt(x, i) && kw.base == x[..i]
    && kw.kind == (if x[i] == "append" then Append else if x[i] == "prepend" then Prepend else Remove)
    && kw.over == (if x[i + 1..] == [""] then [] else x[i + 1..])
  }

  lemma OperationAtIff(x: Name, i: nat)
    requires 1 <= i < |x|
    ensures OperationAt(x, i) <==> KeywordOf(x[i]).Some? && NoUpper(x[i + 1..])
    ensures OperationAt(x, i) ==>
              IsOperation(x, i, Keyword(x[..i], KeywordOf(x[i]).value, if x[i + 1..] == [""] then [] else x[i + 1..]))
  {
    var rest := x[i + 1..];
    NoUpperIff(rest);
    hide NoUpper;
    assert forall j :: i < j < |x| ==> x[j] == rest[j - i - 1];
    assert forall j :: 0 <= j < |rest| ==> rest[j] == x[j + i + 1];
  }

  lemma NoUpperIff(n: Name)
    ensures NoUpper(n) <==> forall j, m :: 0 <= j < |n| && 0 <= m < |n[j]| ==> n[j][m] < 'A' || n[j][m] > 'Z'
  {
    if NoUpper(n) {
      forall j, m | 0 <= j < |n| && 0 <= m < |n[j]|
        ensures n[j][m] < 'A' || n[j][m] > 'Z'
      {
        assert n[j] in n && n[j][m] in n[j];
      }
    }
    if forall j, m :: 0 <= j < |n| && 0 <= m < |n[j]| ==> n[j][m] < 'A' || n[j][m] > 'Z' {
      forall c, ch | c in n && ch in c
        ensures !('A' <= ch <= 'Z')
      {
        var j :| 0 <= j < |n| && n[j] == c;
        var m :| 0 <= m < |c| && c[m] == ch;
      }
    }
  }

  /** A name is an operation exactly when one is found in it, and the first such place, `k`, decides. */
  lemma {:induction false} OperationIsFirst(x: Name, i: nat) returns (k: nat)
    requires 1 <= i
    ensures i <= k && forall j :: i <= j < k ==> !OperationAt(x, j)
    ensures match KeywordFrom(x, i) {
        case None => k >= |x|
        case Some(kw) => IsOperation(x, k, kw)
      }
    decreases |x| - i
  {
    k := i;
    if i < |x| {
      OperationAtIff(x, i);
      hide OperationAt, NoUpper, KeywordOf, IsOperation;
      if !OperationAt(x, i) {
        k := OperationIsFirst(x, i + 1);
      }
    }
  }

  // ----- the old override syntax -----

  predicate ContainsText(s: string, t: string) {
    exists i :: 0 <= i <= |s| && t <= s[i..]
  }

  /** Names that `setVar` refuses: they use `_append`, `_prepend` or `_remove`. */
  predicate OldSyntax(x: Name) {
    && x != []
    && !("__anon_" <= x[0])
    && exists c <- x :: ContainsText(c, "_append") || ContainsText(c, "_prepend") || ContainsText(c, "_remove")
  }

  lemma ContainsIff(s: string, t: string)
    ensures ContainsText(s, t) <==> exists a, b :: s == a + t + b
  {
    if ContainsText(s, t) {
      var i :| 0 <= i <= |s| && t <= s[i..];
      assert s == s[..i] + t + s[i..][|t|..];
    }
    if a, b :| s == a + t + b {
      assert s[|a|..] == t + b;
    }
  }

  ghost predicate UsesOldSyntax(c: Comp) {
    exists a, b :: c == a + "_append" + b || c == a + "_prepend" + b || c == a + "_remove" + b
  }

  /** The old syntax is refused wherever it stands in the name. */
  lemma OldSyntaxIff(x: Name)
    ensures OldSyntax(x) <==> (x != [] && !("__anon_" <= x[0]) && exists c <- x :: UsesOldSyntax(c))
  {
    forall c | c in x
      ensures ContainsText(c, "_append") || ContainsText(c, "_prepend") || ContainsText(c, "_remove") <==> UsesOldSyntax(c)
    {
      ContainsIff(c, "_append");
      ContainsIff(c, "_prepend");
      ContainsIff(c, "_remove");
    }
  }
}

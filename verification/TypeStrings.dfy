/** The EIP-712 type string read backwards: over plain names it determines the primary type and
    every definition behind it, and what goes wrong over other names. */
module TypeStrings {
  import opened Wrappers
  import opened Bytes
  import opened TypeTables

  /** Free of the characters the type string is punctuated with: space, parentheses, comma. */
  predicate Plain(s: Name) {
    32 !in s && 40 !in s && 41 !in s && 44 !in s
  }

  predicate PlainFields(fields: seq<Field>) {
    forall i :: 0 <= i < |fields| ==> Plain(fields[i].name) && Plain(fields[i].typ)
  }

  /** Every name that goes into the type string of p is plain. */
  ghost predicate PlainFrom(t: Types, p: Name) {
    forall x :: x in Reachable(t, p) ==> x in t && Plain(x) && PlainFields(t[x])
  }

  // ---------------------------------------------------------------- reading a type string

  lemma SplitAtLast(a: Bytes, b: Bytes, x: Bytes, y: Bytes, c: byte)
    requires c !in b && c !in y && a + [c] + b == x + [c] + y
    ensures a == x && b == y
  {
    var s, r := a + [c] + b, x + [c] + y;
    assert s[|a|] == c && r[|x|] == c;
    assert forall i :: |a| < i < |s| ==> s[i] == b[i - |a| - 1];
    assert forall i :: |x| < i < |r| ==> r[i] == y[i - |x| - 1];
    assert a == s[..|a|] && x == r[..|x|];
    assert b == s[|a| + 1..] && y == r[|x| + 1..];
  }

  /** The text of a field list in front of the last field's name. */
  function FieldsHead(fields: seq<Field>): Bytes
    requires fields != []
  {
    var n := |fields| - 1;
    RenderFields(fields[..n]) + (if n > 0 then [44] else []) + fields[n].typ
  }

  lemma FieldsSplit(fields: seq<Field>)
    requires fields != []
    ensures RenderFields(fields) == FieldsHead(fields) + [32] + fields[|fields| - 1].name
  {
  }

  lemma HeadSplit(fields: seq<Field>)
    requires |fields| > 1
    ensures FieldsHead(fields) == RenderFields(fields[..|fields| - 1]) + [44] + fields[|fields| - 1].typ
  {
  }

  lemma HeadHasComma(fields: seq<Field>)
    requires |fields| > 1
    ensures 44 in FieldsHead(fields)
  {
    assert FieldsHead(fields)[|RenderFields(fields[..|fields| - 1])|] == 44;
  }

  lemma LoneHead(fields: seq<Field>)
    requires |fields| == 1
    ensures FieldsHead(fields) == fields[0].typ
  {
    assert fields[..0] == [];
  }

  lemma {:induction false} FieldsInjective(f: seq<Field>, g: seq<Field>)
    requires PlainFields(f) && PlainFields(g) && RenderFields(f) == RenderFields(g)
    ensures f == g
  {
    hide RenderFields, FieldsHead, Plain;
    NoFields();
    if f == [] || g == [] {
      if f != [] { FieldsSplit(f); }
      if g != [] { FieldsSplit(g); }
    } else {
      LastFieldEqual(f, g);
      var n, m := |f| - 1, |g| - 1;
      if n > 0 {
        FieldsInjective(f[..n], g[..m]);
      }
      assert f == f[..n] + [f[n]] && g == g[..m] + [g[m]];
    }
  }

  lemma NoFields()
    ensures RenderFields([]) == []
  {
  }

  lemma LastFieldEqual(f: seq<Field>, g: seq<Field>)
    requires f != [] && g != []
    requires PlainFields(f) && PlainFields(g) && RenderFields(f) == RenderFields(g)
    ensures f[|f| - 1] == g[|g| - 1] && (|f| == 1 <==> |g| == 1)
    ensures RenderFields(f[..|f| - 1]) == RenderFields(g[..|g| - 1])
  {
    hide RenderFields;
    NoFields();
    var n, m := |f| - 1, |g| - 1;
    FieldsSplit(f);
    FieldsSplit(g);
    SplitAtLast(FieldsHead(f), f[n].name, FieldsHead(g), g[m].name, 32);
    if n > 0 { HeadHasComma(f); HeadSplit(f); }
    if m > 0 { HeadHasComma(g); HeadSplit(g); }
    if n == 0 { LoneHead(f); }
    if m == 0 { LoneHead(g); }
    if n > 0 && m > 0 {
      SplitAtLast(RenderFields(f[..n]), f[n].typ, RenderFields(g[..m]), g[m].typ, 44);
    } else if n == 0 && m == 0 {
      assert f[..0] == [] && g[..0] == [];
    }
  }

  lemma {:induction false} FieldsHaveNoParentheses(f: seq<Field>)
    requires PlainFields(f)
    ensures 40 !in RenderFields(f) && 41 !in RenderFields(f)
  {
    if f != [] { FieldsHaveNoParentheses(f[..|f| - 1]); }
  }

  ghost predicate PlainOrder(t: Types, order: seq<Name>) {
    forall i :: 0 <= i < |order| ==> Plain(order[i]) && PlainFields(FieldsOf(t, order[i]))
  }

  lemma RenderSplit(t: Types, order: seq<Name>)
    requires order != []
    ensures var n := |order| - 1;
            Render(t, order) == (Render(t, order[..n]) + order[n]) + [40] + (RenderFields(FieldsOf(t, order[n])) + [41])
  {
  }

  lemma RenderEnds(t: Types, order: seq<Name>)
    ensures if order == [] then Render(t, order) == []
            else Render(t, order) != [] && Render(t, order)[|Render(t, order)| - 1] == 41
  {
  }

  lemma NameSplit(x: Bytes, a: Name, y: Bytes, b: Name)
    requires 41 !in a && 41 !in b && x + a == y + b
    requires (x == [] || x[|x| - 1] == 41) && (y == [] || y[|y| - 1] == 41)
    ensures x == y && a == b
  {
    if x == [] && y != [] {
      assert a == y + b;
      ClosedInside(y, b, a);
    } else if x != [] && y == [] {
      assert b == x + a;
      ClosedInside(x, a, b);
    } else if x == [] {
      assert x + a == a && y + b == b;
    } else {
      assert x == x[..|x| - 1] + [41] && y == y[..|y| - 1] + [41];
      SplitAtLast(x[..|x| - 1], a, y[..|y| - 1], b, 41);
    }
  }

  lemma ClosedInside(x: Bytes, a: Bytes, whole: Bytes)
    requires x != [] && x[|x| - 1] == 41 && whole == x + a
    ensures 41 in whole
  {
    assert whole[|x| - 1] == 41;
  }

  lemma LastTypeEqual(t: Types, o: seq<Name>, u: Types, p: seq<Name>)
    requires o != [] && p != []
    requires PlainOrder(t, o) && PlainOrder(u, p) && Render(t, o) == Render(u, p)
    ensures o[|o| - 1] == p[|p| - 1]
    ensures FieldsOf(t, o[|o| - 1]) == FieldsOf(u, p[|p| - 1])
    ensures Render(t, o[..|o| - 1]) == Render(u, p[..|p| - 1])
  {
    hide Render, RenderFields, PlainFields, FieldsOf;
    var n, m := |o| - 1, |p| - 1;
    var f, g := RenderFields(FieldsOf(t, o[n])), RenderFields(FieldsOf(u, p[m]));
    RenderSplit(t, o);
    RenderSplit(u, p);
    FieldsHaveNoParentheses(FieldsOf(t, o[n]));
    FieldsHaveNoParentheses(FieldsOf(u, p[m]));
    SplitAtLast(Render(t, o[..n]) + o[n], f + [41], Render(u, p[..m]) + p[m], g + [41], 40);
    assert f == (f + [41])[..|f|] && g == (g + [41])[..|g|];
    FieldsInjective(FieldsOf(t, o[n]), FieldsOf(u, p[m]));
    RenderEnds(t, o[..n]);
    RenderEnds(u, p[..m]);
    NameSplit(Render(t, o[..n]), o[n], Render(u, p[..m]), p[m]);
  }

  lemma {:induction false} RenderInjective(t: Types, o: seq<Name>, u: Types, p: seq<Name>)
    requires PlainOrder(t, o) && PlainOrder(u, p) && Render(t, o) == Render(u, p)
    ensures o == p
    ensures forall x :: x in o ==> FieldsOf(t, x) == FieldsOf(u, x)
  {
    hide Render, PlainFields, FieldsOf;
    RenderEnds(t, o);
    RenderEnds(u, p);
    if o != [] && p != [] {
      var n, m := |o| - 1, |p| - 1;
      LastTypeEqual(t, o, u, p);
      RenderInjective(t, o[..n], u, p[..m]);
      assert o == o[..n] + [o[n]] && p == p[..m] + [p[m]];
    }
  }

  // ---------------------------------------------------------------- type strings bind type tables

  /** The two tables define the same types as far as they are reachable from primary. */
  ghost predicate SameTypes(t: Types, u: Types, primary: Name) {
    && Reachable(t, primary) == Reachable(u, primary)
    && forall x :: x in Reachable(t, primary) ==> x in t && x in u && t[x] == u[x]
  }

  lemma TypeStringOrder(t: Types, primary: Name) returns (order: seq<Name>)
    requires primary in t && PlainFrom(t, primary)
    ensures CanonicalOrder(t, primary, order) && TypeString(t, primary) == Render(t, order)
    ensures PlainOrder(t, order)
    ensures forall x :: x in order <==> x in Reachable(t, primary)
  {
    hide Render, Plain, PlainFields, Ascending, TypeString;
    CanonicalOrderExists(t, primary);
    order :| CanonicalOrder(t, primary, order);
    TypeStringIs(t, primary, order);
    ReachesSelf(t, primary);
    assert order == [primary] + order[1..];
    forall x | x in Reachable(t, primary) ensures x in t { ReachedIsDeclared(t, primary, x); }
    assert forall i :: 0 <= i < |order| ==> order[i] in order;
  }

  /** Over plain names equal type strings mean the same primary type and the same definition
      of every type reachable from it. */
  lemma TypeStringBinds(t: Types, p: Name, u: Types, q: Name)
    requires p in t && q in u && PlainFrom(t, p) && PlainFrom(u, q)
    requires TypeString(t, p) == TypeString(u, q)
    ensures p == q && SameTypes(t, u, p)
  {
    hide Render, PlainFrom, TypeString, Reaches, Lists, PlainOrder;
    var a := TypeStringOrder(t, p);
    var b := TypeStringOrder(u, q);
    RenderInjective(t, a, u, b);
    forall x | x in Reachable(t, p) ensures x in t && x in u {
      ReachedIsDeclared(t, p, x);
      ReachedIsDeclared(u, p, x);
    }
  }

  // ---------------------------------------------------------------- reading a field list, exactly

  predicate SpaceFree(f: seq<Field>) {
    forall i :: 0 <= i < |f| ==> 32 !in f[i].name && 32 !in f[i].typ
  }

  /** No space anywhere, and no comma outside the first type and the last name. */
  predicate ReadsBack(f: seq<Field>) {
    && SpaceFree(f)
    && (forall i :: 0 <= i < |f| - 1 ==> 44 !in f[i].name)
    && (forall i :: 0 < i < |f| ==> 44 !in f[i].typ)
  }

  lemma SpacesStep(f: seq<Field>)
    requires f != []
    ensures var n := |f| - 1;
            multiset(RenderFields(f))[32]
              == multiset(RenderFields(f[..n]))[32] + multiset(f[n].typ)[32] + 1 + multiset(f[n].name)[32]
  {
    var n := |f| - 1;
    var r, comma: Bytes := RenderFields(f[..n]), if n > 0 then [44] else [];
    assert RenderFields(f) == r + comma + f[n].typ + [32] + f[n].name;
    assert multiset(r + comma + f[n].typ + [32] + f[n].name)
        == multiset(r) + multiset(comma) + multiset(f[n].typ) + multiset{32} + multiset(f[n].name);
  }

  lemma SpaceFreeStep(f: seq<Field>)
    requires f != []
    ensures var n := |f| - 1;
            SpaceFree(f) <==> SpaceFree(f[..n]) && multiset(f[n].typ)[32] + multiset(f[n].name)[32] == 0
  {
    var n := |f| - 1;
    assert f == f[..n] + [f[n]];
    assert multiset(f[n].name)[32] == 0 <==> 32 !in multiset(f[n].name);
    assert multiset(f[n].typ)[32] == 0 <==> 32 !in multiset(f[n].typ);
    if SpaceFree(f) {
      assert forall i :: 0 <= i < n ==> f[..n][i] == f[i];
    } else if SpaceFree(f[..n]) {
      assert forall i :: 0 <= i < n ==> f[i] == f[..n][i];
    }
  }

  lemma {:induction false} Spaces(f: seq<Field>)
    ensures multiset(RenderFields(f))[32] >= |f|
    ensures multiset(RenderFields(f))[32] == |f| <==> SpaceFree(f)
  {
    if f == [] {
      NoFields();
    } else {
      hide RenderFields, SpaceFree;
      Spaces(f[..|f| - 1]);
      SpacesStep(f);
      SpaceFreeStep(f);
    }
  }

  /** The text between the last two spaces: a name, a comma, a type. */
  function Joint(f: seq<Field>): Bytes
    requires |f| > 1
  {
    f[|f| - 2].name + [44] + f[|f| - 1].typ
  }

  lemma JointSplit(f: seq<Field>)
    requires |f| > 1
    ensures FieldsHead(f) == FieldsHead(f[..|f| - 1]) + [32] + Joint(f)
    ensures RenderFields(f[..|f| - 1]) == FieldsHead(f[..|f| - 1]) + [32] + f[|f| - 2].name
  {
    hide RenderFields, FieldsHead;
    var n := |f| - 1;
    HeadSplit(f);
    FieldsSplit(f[..n]);
    assert FieldsHead(f[..n]) + [32] + f[n - 1].name + [44] + f[n].typ
        == FieldsHead(f[..n]) + [32] + (f[n - 1].name + [44] + f[n].typ);
  }

  lemma OneComma(a: Bytes, b: Bytes, x: Bytes, y: Bytes)
    requires 44 !in a && 44 !in b && a + [44] + b == x + [44] + y
    ensures a == x && b == y
  {
    assert multiset(a + [44] + b)[44] == 1;
    assert multiset(x + [44] + y)[44] == multiset(x)[44] + 1 + multiset(y)[44];
    assert 44 !in multiset(y);
    SplitAtLast(a, b, x, y, 44);
  }

  lemma {:induction false} ReadBack(f: seq<Field>, g: seq<Field>)
    requires ReadsBack(f) && SpaceFree(g) && |f| == |g| && RenderFields(f) == RenderFields(g)
    ensures f == g
  {
    hide RenderFields, FieldsHead;
    if f != [] {
      var n := |f| - 1;
      FieldsSplit(f);
      FieldsSplit(g);
      SplitAtLast(FieldsHead(f), f[n].name, FieldsHead(g), g[n].name, 32);
      if n == 0 {
        LoneHead(f);
        LoneHead(g);
      } else {
        JointSplit(f);
        JointSplit(g);
        SplitAtLast(FieldsHead(f[..n]), Joint(f), FieldsHead(g[..n]), Joint(g), 32);
        OneComma(f[n - 1].name, f[n].typ, g[n - 1].name, g[n].typ);
        ReadBack(f[..n], g[..n]);
      }
      assert f == f[..n] + [f[n]] && g == g[..n] + [g[n]];
    }
  }

  lemma HeadOf(f: seq<Field>)
    requires f != []
    ensures var n := |f| - 1;
            FieldsHead(f) == RenderFields(f[..n]) + (if n > 0 then [44] else []) + f[n].typ
  {
  }

  lemma {:induction false} RenderAppend(a: seq<Field>, b: seq<Field>)
    ensures RenderFields(a + b)
         == if a == [] then RenderFields(b) else if b == [] then RenderFields(a)
            else RenderFields(a) + [44] + RenderFields(b)
  {
    hide RenderFields;
    NoFields();
    if a == [] {
      assert a + b == b;
    } else if b == [] {
      assert a + b == a;
    } else {
      var n := |b| - 1;
      var comma: Bytes := [44];
      RenderAppend(a, b[..n]);
      assert (a + b)[..|a + b| - 1] == a + b[..n] && (a + b)[|a + b| - 1] == b[n];
      FieldsSplit(a + b);
      FieldsSplit(b);
      HeadOf(a + b);
      HeadOf(b);
      if n == 0 { assert b[..0] == []; }
    }
  }

  /** Fields in the middle of a list may be exchanged for others with the same text. */
  lemma SameMiddle(a: seq<Field>, m: seq<Field>, l: seq<Field>, b: seq<Field>)
    requires RenderFields(m) == RenderFields(l) && m != [] && l != []
    ensures RenderFields(a + m + b) == RenderFields(a + l + b)
  {
    RenderAppend(a + m, b);
    RenderAppend(a + l, b);
    RenderAppend(a, m);
    RenderAppend(a, l);
  }

  /** Another list of as many fields with the same text. */
  ghost predicate HasTwin(f: seq<Field>) {
    exists g :: |g| == |f| && RenderFields(g) == RenderFields(f) && g != f
  }

  lemma OneField(f: Field)
    ensures RenderFields([f]) == f.typ + [32] + f.name
  {
    assert [f][..0] == [];
  }

  lemma SpaceGivesTwin(f: seq<Field>, i: nat)
    requires i < |f| && (32 in f[i].name || 32 in f[i].typ)
    ensures HasTwin(f)
  {
    hide RenderFields;
    var x, y := f[i].name, f[i].typ;
    var twin;
    if 32 in x {
      var j :| 0 <= j < |x| && x[j] == 32;
      twin := Field(x[j + 1..], y + [32] + x[..j]);
      assert x == x[..j] + [32] + x[j + 1..];
    } else {
      var j :| 0 <= j < |y| && y[j] == 32;
      twin := Field(y[j + 1..] + [32] + x, y[..j]);
      assert y == y[..j] + [32] + y[j + 1..];
    }
    assert twin.typ + [32] + twin.name == y + [32] + x;
    OneField(f[i]);
    OneField(twin);
    var g := f[..i] + [twin] + f[i + 1..];
    SameMiddle(f[..i], [f[i]], [twin], f[i + 1..]);
    assert f == f[..i] + [f[i]] + f[i + 1..];
    assert g[i] == twin && |twin.name| != |x|;
  }

  lemma CommaGivesTwin(f: seq<Field>, i: nat)
    requires i + 1 < |f| && (44 in f[i].name || 44 in f[i + 1].typ)
    ensures HasTwin(f)
  {
    var x, y := f[i].name, f[i + 1].typ;
    var name, typ;
    if 44 in x {
      var j :| 0 <= j < |x| && x[j] == 44;
      name, typ := x[..j], x[j + 1..] + [44] + y;
      assert x == x[..j] + [44] + x[j + 1..];
    } else {
      var j :| 0 <= j < |y| && y[j] == 44;
      name, typ := x + [44] + y[..j], y[j + 1..];
      assert y == y[..j] + [44] + y[j + 1..];
    }
    assert name + [44] + typ == x + [44] + y;
    CommaTwin(f, i, name, typ);
  }

  lemma CommaTwin(f: seq<Field>, i: nat, name: Name, typ: Name)
    requires i + 1 < |f| && name + [44] + typ == f[i].name + [44] + f[i + 1].typ && name != f[i].name
    ensures HasTwin(f)
  {
    hide RenderFields;
    var a, b := Field(name, f[i].typ), Field(f[i + 1].name, typ);
    TwoFields(f[i], f[i + 1]);
    TwoFields(a, b);
    var left, right := f[i].typ + [32], [32] + f[i + 1].name;
    assert RenderFields([f[i], f[i + 1]]) == left + (f[i].name + [44] + f[i + 1].typ) + right;
    assert RenderFields([a, b]) == left + (name + [44] + typ) + right;
    var g := f[..i] + [a, b] + f[i + 2..];
    SameMiddle(f[..i], [f[i], f[i + 1]], [a, b], f[i + 2..]);
    assert f == f[..i] + [f[i], f[i + 1]] + f[i + 2..];
    assert g[i] == a;
  }

  /** The text of a field list belongs to no other list of as many fields if and only if no
      space occurs in it and no comma outside the first type and the last name. */
  lemma FieldListExactly(f: seq<Field>)
    ensures !HasTwin(f) <==> ReadsBack(f)
  {
    hide RenderFields;
    if ReadsBack(f) {
      forall g | |g| == |f| && RenderFields(g) == RenderFields(f) ensures g == f {
        Spaces(f);
        Spaces(g);
        ReadBack(f, g);
      }
    } else if !SpaceFree(f) {
      var i :| 0 <= i < |f| && !(32 !in f[i].name && 32 !in f[i].typ);
      SpaceGivesTwin(f, i);
    } else if i :| 0 <= i < |f| - 1 && 44 in f[i].name {
      CommaGivesTwin(f, i);
    } else {
      var i :| 0 < i < |f| && 44 in f[i].typ;
      CommaGivesTwin(f, i - 1);
    }
  }

  // ---------------------------------------------------------------- each of the four characters

  predicate PlainBut(c: byte, s: Name) {
    forall i :: 0 <= i < |s| ==> s[i] == c || s[i] !in [32, 40, 41, 44]
  }

  predicate TableBut(c: byte, t: Types) {
    forall x :: x in t ==>
      && PlainBut(c, x)
      && forall i :: 0 <= i < |t[x]| ==> PlainBut(c, t[x][i].name) && PlainBut(c, t[x][i].typ)
  }

  /** Two tables in which only character c is out of place, with different definitions behind
      one type string. */
  ghost predicate Ambiguous(c: byte, t: Types, p: Name, u: Types, q: Name) {
    && TableBut(c, t) && TableBut(c, u) && p in t && q in u
    && TypeString(t, p) == TypeString(u, q) && !(p == q && SameTypes(t, u, p))
  }

  const A: Name := [65]
  const S: Name := [83]
  const M: Name := [109]
  const T: Name := [116]

  lemma OneType(c: byte, a: Name, f: seq<Field>, b: Name, g: seq<Field>)
    requires TableBut(c, map[a := f]) && TableBut(c, map[b := g]) && (a != b || f != g)
    requires forall i :: 0 <= i < |f| ==> BaseType(f[i].typ) != a
    requires forall i :: 0 <= i < |g| ==> BaseType(g[i].typ) != b
    requires a + [40] + RenderFields(f) + [41] == b + [40] + RenderFields(g) + [41]
    ensures Ambiguous(c, map[a := f], a, map[b := g], b)
  {
    hide TypeString, RenderFields, BaseType, TableBut;
    LoneType(map[a := f], a);
    LoneType(map[b := g], b);
    LoneReach(map[a := f], a);
  }

  /** Space: "t m" named "m" against "t" named "m m". */
  lemma SpaceIsAmbiguous()
    ensures Ambiguous(32, map[A := [Field(M, T + [32] + M)]], A, map[A := [Field(M + [32] + M, T)]], A)
  {
    hide Ambiguous, RenderFields, BaseType;
    var f, g := Field(M, T + [32] + M), Field(M + [32] + M, T);
    OneField(f);
    OneField(g);
    BaseOfPlain(f.typ);
    BaseOfPlain(g.typ);
    OneType(32, A, [f], A, [g]);
  }

  const MERGED: seq<Field> := [Field(M + [44] + M, T), Field(M, T)]
  const SHIFTED: seq<Field> := [Field(M, T), Field(M, M + [44] + T)]

  /** Comma: fields "t m,m" and "t m" against "t m" and "m,t m". */
  lemma CommaIsAmbiguous()
    ensures Ambiguous(44, map[A := MERGED], A, map[A := SHIFTED], A)
  {
    hide Ambiguous, RenderFields, BaseType;
    TwoFields(MERGED[0], MERGED[1]);
    TwoFields(SHIFTED[0], SHIFTED[1]);
    BaseOfPlain(T);
    BaseOfPlain(M + [44] + T);
    assert MERGED[0].name != SHIFTED[0].name;
    OneType(44, A, MERGED, A, SHIFTED);
  }

  /** Opening parenthesis: type A with a field of type "m(t" against type "A(m" with one of type "t". */
  lemma OpenIsAmbiguous()
    ensures Ambiguous(40, map[A := [Field(M, M + [40] + T)]], A, map[A + [40] + M := [Field(M, T)]], A + [40] + M)
  {
    hide Ambiguous, RenderFields, BaseType;
    var f, g := Field(M, M + [40] + T), Field(M, T);
    OneField(f);
    OneField(g);
    BaseOfPlain(f.typ);
    BaseOfPlain(g.typ);
    OneType(40, A, [f], A + [40] + M, [g]);
  }

  const FIRST: seq<Field> := [Field(M, S), Field(M + [41] + T, T + [41] + S)]
  const SECOND: seq<Field> := [Field(M, S), Field(M, T + [41] + S)]
  const LEAF: seq<Field> := [Field(M, T)]

  /** Closing parenthesis: "A(S m,t)S m)t)S(t m)" ends its first type behind the second field's
      name "m)t" or "m", and goes on with the type "S" or "t)S". */
  lemma CloseIsAmbiguous()
    ensures Ambiguous(41, map[A := FIRST, S := LEAF], A, map[A := SECOND, T + [41] + S := LEAF], A)
  {
    hide TypeString, SameTypes;
    CloseTexts();
    CloseTypeStrings();
    NotSameTypes(map[A := FIRST, S := LEAF], map[A := SECOND, T + [41] + S := LEAF], A);
  }

  lemma CloseTypeStrings()
    ensures TypeString(map[A := FIRST, S := LEAF], A) == TypeString(map[A := SECOND, T + [41] + S := LEAF], A)
  {
    hide RenderFields, TypeString, BaseType;
    var b := T + [41] + S;
    BaseOfPlain(S);
    BaseOfPlain(T);
    BaseOfPlain(b);
    CloseTexts();
    assert BaseType(FIRST[0].typ) == S && BaseType(SECOND[1].typ) == b;
    PairType(A, FIRST, S, LEAF);
    PairType(A, SECOND, b, LEAF);
    var tail := [40] + RenderFields(LEAF) + [41];
    assert A + [40] + RenderFields(FIRST) + [41] + S + [40] + RenderFields(LEAF) + [41]
        == A + [40] + (RenderFields(FIRST) + [41] + S) + tail;
    assert A + [40] + RenderFields(SECOND) + [41] + b + [40] + RenderFields(LEAF) + [41]
        == A + [40] + (RenderFields(SECOND) + [41] + b) + tail;
  }

  lemma CloseTexts()
    ensures FIRST != SECOND
    ensures RenderFields(FIRST) + [41] + S == RenderFields(SECOND) + [41] + (T + [41] + S)
  {
    hide RenderFields;
    TwoFields(FIRST[0], FIRST[1]);
    TwoFields(SECOND[0], SECOND[1]);
    assert FIRST[1].name != SECOND[1].name;
  }

  lemma NotSameTypes(t: Types, u: Types, p: Name)
    requires p in t && p in u && t[p] != u[p]
    ensures !SameTypes(t, u, p)
  {
    ReachesSelf(t, p);
  }

  /** The type string of a type that refers to one other type. */
  lemma PairType(a: Name, f: seq<Field>, b: Name, g: seq<Field>)
    requires a != b && (forall i :: 0 <= i < |g| ==> BaseType(g[i].typ) != a && BaseType(g[i].typ) != b)
    requires (exists i :: 0 <= i < |f| && BaseType(f[i].typ) == b)
    ensures TypeString(map[a := f, b := g], a)
         == a + [40] + RenderFields(f) + [41] + b + [40] + RenderFields(g) + [41]
  {
    hide BaseType, RenderFields, TypeString, Render, Reachable;
    var t: Types := map[a := f, b := g];
    PairReach(a, f, b, g);
    assert [a, b][1..] == [b] && [b][1..] == [];
    assert {a, b} - {a} == {b};
    Alone(b);
    assert CanonicalOrder(t, a, [a, b]);
    TypeStringIs(t, a, [a, b]);
    RenderTwo(t, a, b);
  }

  lemma Alone(b: Name)
    ensures Lists([b], {b})
  {
    assert [b][1..] == [];
    assert Ascending([]);
  }

  lemma PairReach(a: Name, f: seq<Field>, b: Name, g: seq<Field>)
    requires a != b && (forall i :: 0 <= i < |g| ==> BaseType(g[i].typ) != a && BaseType(g[i].typ) != b)
    requires (exists i :: 0 <= i < |f| && BaseType(f[i].typ) == b)
    ensures Reachable(map[a := f, b := g], a) == {a, b}
  {
    hide BaseType;
    var t: Types := map[a := f, b := g];
    forall x | Reaches(t, a, x) ensures x in {a, b} { ReachedIsDeclared(t, a, x); }
    ReachesSelf(t, a);
    ReachesSelf(t, b);
    ReachesVia(t, a, b, b);
  }

  lemma RenderTwo(t: Types, a: Name, b: Name)
    ensures Render(t, [a, b])
         == a + [40] + RenderFields(FieldsOf(t, a)) + [41] + b + [40] + RenderFields(FieldsOf(t, b)) + [41]
  {
    hide RenderFields;
    assert [a, b][..1] == [a];
    RenderOne(t, a);
  }

  lemma TwoFields(f: Field, g: Field)
    ensures RenderFields([f, g]) == f.typ + [32] + f.name + [44] + g.typ + [32] + g.name
  {
    assert [f, g][..1] == [f] && [f][..0] == [];
    assert RenderFields([f]) == f.typ + [32] + f.name;
  }

  lemma LoneReach(t: Types, a: Name)
    requires a in t && forall i :: 0 <= i < |t[a]| ==> BaseType(t[a][i].typ) !in t
    ensures Reachable(t, a) == {a}
  {
    hide BaseType;
    forall x | Reaches(t, a, x) ensures x == a {
      var p :| PathFromTo(t, p, a, x);
      assert |p| > 1 ==> Refers(t, p[0], p[0 + 1]);
    }
    ReachesSelf(t, a);
  }

  /** The type string of a type that refers to no declared type. */
  lemma LoneType(t: Types, a: Name)
    requires a in t && forall i :: 0 <= i < |t[a]| ==> BaseType(t[a][i].typ) !in t
    ensures TypeString(t, a) == a + [40] + RenderFields(t[a]) + [41]
  {
    hide BaseType, RenderFields, Reachable, TypeString, Render;
    LoneReach(t, a);
    assert [a][1..] == [];
    assert CanonicalOrder(t, a, [a]);
    TypeStringIs(t, a, [a]);
    RenderOne(t, a);
  }

  lemma RenderOne(t: Types, a: Name)
    ensures Render(t, [a]) == a + [40] + RenderFields(FieldsOf(t, a)) + [41]
  {
    assert [a][..0] == [];
    assert Render(t, [a]) == [] + a + [40] + RenderFields(FieldsOf(t, a)) + [41];
  }

  // ---------------------------------------------------------------- base types

  lemma InPrefix(s: Bytes, i: nat, j: nat)
    requires i < j <= |s|
    ensures s[i] in s[..j]
  {
    assert s[..j][i] == s[i];
  }

  lemma IndexIs(s: Bytes, c: byte, i: nat)
    requires i <= |s| && c !in s[..i] && (i < |s| ==> s[i] == c)
    ensures IndexOf(s, c) == i
  {
  }

  /** An array type and its element type have the same base type. */
  lemma BaseOfElement(ft: Name)
    requires LastIndexOf(ft, OPEN_BRACKET).Some?
    ensures BaseType(ft[..LastIndexOf(ft, OPEN_BRACKET).value]) == BaseType(ft)
  {
    hide IndexOf;
    var last := LastIndexOf(ft, OPEN_BRACKET).value;
    LastHolds(ft, OPEN_BRACKET);
    var first := IndexOf(ft, OPEN_BRACKET);
    if last < first { InPrefix(ft, last, first); }
    var sub := ft[..last];
    assert sub[..first] == ft[..first];
    IndexIs(sub, OPEN_BRACKET, first);
  }

  lemma {:induction false} LastHolds(s: Bytes, c: byte)
    ensures LastIndexOf(s, c).Some? ==> s[LastIndexOf(s, c).value] == c
  {
    if s != [] && s[|s| - 1] != c { LastHolds(s[..|s| - 1], c); }
  }

  lemma BaseOfPlain(ft: Name)
    requires OPEN_BRACKET !in ft
    ensures BaseType(ft) == ft
  {
    assert ft[..|ft|] == ft;
    IndexIs(ft, OPEN_BRACKET, |ft|);
  }

  /** No form of a field type, with one array suffix after the other taken away, is a declared
      type as long as there is a bracket in it. */
  predicate ArraysFree(t: Types, ft: Name)
    decreases |ft|
  {
    && (OPEN_BRACKET in ft ==> ft !in t)
    && (ElementType(ft).Some? ==> ArraysFree(t, ElementType(ft).value))
  }

  /** No field of a type reachable from p has an array type that is also declared as a struct. */
  ghost predicate ArraysUndeclared(t: Types, p: Name) {
    forall x, i :: x in Reachable(t, p) && x in t && 0 <= i < |t[x]| ==> ArraysFree(t, t[x][i].typ)
  }

  // ---------------------------------------------------------------- flat types

  /** A type of plain names, none of whose fields is an array or a declared struct. */
  predicate Flat(t: Types, p: Name) {
    p in t ==>
      && Plain(p) && PlainFields(t[p])
      && forall i :: 0 <= i < |t[p]| ==> OPEN_BRACKET !in t[p][i].typ && t[p][i].typ !in t
  }

  lemma FlatReach(t: Types, p: Name)
    requires p in t && Flat(t, p)
    ensures Reachable(t, p) == {p} && TypeString(t, p) == p + [40] + RenderFields(t[p]) + [41]
  {
    hide BaseType, Plain, PlainFields, Reachable, TypeString, RenderFields;
    forall i | 0 <= i < |t[p]| ensures BaseType(t[p][i].typ) !in t { BaseOfPlain(t[p][i].typ); }
    LoneReach(t, p);
    LoneType(t, p);
  }

  /** Every type in a type string opens a parenthesis. */
  lemma {:induction false} OpenCount(t: Types, order: seq<Name>)
    ensures multiset(Render(t, order))[40] >= |order|
  {
    if order != [] {
      var n := |order| - 1;
      OpenCount(t, order[..n]);
      RenderSplit(t, order);
      var x, y := Render(t, order[..n]) + order[n], RenderFields(FieldsOf(t, order[n])) + [41];
      assert multiset(x + [40] + y) == multiset(x) + multiset{40} + multiset(y);
    }
  }

  lemma OpenCountOne(x: Bytes, y: Bytes)
    ensures multiset(x + [40] + y)[40] == multiset(x)[40] + 1 + multiset(y)[40]
    ensures multiset(x)[40] == 0 <==> 40 !in x
    ensures multiset(y)[40] == 0 <==> 40 !in y
  {
    assert multiset(x + [40] + y) == multiset(x) + multiset{40} + multiset(y);
    assert 40 in x <==> 40 in multiset(x);
    assert 40 in y <==> 40 in multiset(y);
  }

  /** A type string with one opening parenthesis belongs to one type. */
  lemma OneOpen(u: Types, q: Name)
    requires q in u && multiset(TypeString(u, q))[40] == 1
    ensures TypeString(u, q) == q + [40] + (RenderFields(u[q]) + [41])
    ensures 40 !in q && 40 !in RenderFields(u[q]) + [41]
    ensures Reachable(u, q) == {q}
  {
    hide RenderFields, Reachable, Render;
    CanonicalOrderExists(u, q);
    var o :| CanonicalOrder(u, q, o);
    TypeStringIs(u, q, o);
    OpenCount(u, o);
    assert o == [q];
    RenderOne(u, q);
    assert q + [40] + RenderFields(u[q]) + [41] == q + [40] + (RenderFields(u[q]) + [41]);
    OpenCountOne(q, RenderFields(u[q]) + [41]);
    ReachesSelf(u, q);
    LoneOrder(u, q);
  }

  lemma LoneOrder(u: Types, q: Name)
    requires q in u && CanonicalOrder(u, q, [q])
    ensures Reachable(u, q) == {q}
  {
    hide Ascending, Reaches;
    ReachesSelf(u, q);
    var none: seq<Name> := [q][1..];
    assert none == [];
    forall x | x in Reachable(u, q) ensures x == q {
      assert x != q ==> x in none;
    }
  }

  lemma PlainReadsBack(f: seq<Field>)
    requires PlainFields(f)
    ensures ReadsBack(f)
  {
  }

  /** The type string of a flat type belongs, over all tables and whatever their names, to no
      other type with as many fields. */
  lemma FlatTypeString(t: Types, p: Name, u: Types, q: Name)
    requires p in t && q in u && Flat(t, p)
    requires TypeString(t, p) == TypeString(u, q) && |t[p]| == |u[q]|
    ensures p == q && t[p] == u[q] && SameTypes(t, u, p)
  {
    hide RenderFields, TypeString, Reachable, ReadsBack;
    FlatReach(t, p);
    FieldsHaveNoParentheses(t[p]);
    var x, y := RenderFields(t[p]) + [41], RenderFields(u[q]) + [41];
    assert p + [40] + RenderFields(t[p]) + [41] == p + [40] + x;
    OpenCountOne(p, x);
    OneOpen(u, q);
    SplitAtLast(p, x, q, y, 40);
    assert RenderFields(t[p]) == x[..|x| - 1] == y[..|y| - 1] == RenderFields(u[q]);
    PlainReadsBack(t[p]);
    FieldListExactly(t[p]);
  }

  lemma FlatArraysUndeclared(t: Types, p: Name, fields: seq<Field>)
    requires p in t && Reachable(t, p) == {p} && t[p] == fields
    requires forall i :: 0 <= i < |fields| ==> OPEN_BRACKET !in fields[i].typ
    ensures ArraysUndeclared(t, p)
  {
    forall i | 0 <= i < |fields| ensures ArraysFree(t, fields[i].typ) {
      LastHolds(fields[i].typ, OPEN_BRACKET);
    }
  }

  // ---------------------------------------------------------------- the example of the standard

  function Ascii(s: string): Bytes {
    seq(|s|, i requires 0 <= i < |s| => s[i] as int % 256)
  }

  const TRANSACTION: Name := Ascii("Transaction")
  const ASSET: Name := Ascii("Asset")
  const PERSON: Name := Ascii("Person")
  const TRANSACTION_FIELDS: seq<Field> :=
    [Field(Ascii("from"), PERSON), Field(Ascii("to"), PERSON), Field(Ascii("tx"), ASSET)]
  const ASSET_FIELDS: seq<Field> := [Field(Ascii("token"), Ascii("address")), Field(Ascii("amount"), Ascii("uint256"))]
  const PERSON_FIELDS: seq<Field> := [Field(Ascii("wallet"), Ascii("address")), Field(Ascii("name"), Ascii("string"))]
  const EXAMPLE: Types := map[TRANSACTION := TRANSACTION_FIELDS, PERSON := PERSON_FIELDS, ASSET := ASSET_FIELDS]

  lemma ThreeFields(f: Field, g: Field, h: Field)
    ensures RenderFields([f, g, h])
         == f.typ + [32] + f.name + [44] + g.typ + [32] + g.name + [44] + h.typ + [32] + h.name
  {
    assert [f, g, h][..2] == [f, g];
    TwoFields(f, g);
  }

  lemma RenderThree(t: Types, a: Name, b: Name, c: Name)
    ensures Render(t, [a, b, c])
         == (a + [40] + RenderFields(FieldsOf(t, a)) + [41])
            + (b + [40] + RenderFields(FieldsOf(t, b)) + [41])
            + (c + [40] + RenderFields(FieldsOf(t, c)) + [41])
  {
    hide RenderFields;
    assert [a, b, c][..2] == [a, b];
    RenderTwo(t, a, b);
    var x, y := a + [40] + RenderFields(FieldsOf(t, a)) + [41], RenderFields(FieldsOf(t, b));
    assert x + b + [40] + y + [41] == x + (b + [40] + y + [41]);
  }

  lemma StructNames()
    ensures TRANSACTION != ASSET && TRANSACTION != PERSON && ASSET != PERSON
    ensures BaseType(ASSET) == ASSET && BaseType(PERSON) == PERSON
    ensures SmallerAt(ASSET, PERSON, 0)
  {
    hide BaseType;
    assert |TRANSACTION| == 11 && |ASSET| == 5 && |PERSON| == 6;
    assert PERSON[0] == 80 && ASSET[0] == 65;
    BaseOfPlain(ASSET);
    BaseOfPlain(PERSON);
  }

  lemma LeafNames()
    ensures BaseType(Ascii("address")) == Ascii("address") && Ascii("address") !in EXAMPLE
    ensures BaseType(Ascii("uint256")) == Ascii("uint256") && Ascii("uint256") !in EXAMPLE
    ensures BaseType(Ascii("string")) == Ascii("string") && Ascii("string") !in EXAMPLE
  {
    hide BaseType;
    assert |TRANSACTION| == 11 && |ASSET| == 5 && |PERSON| == 6;
    assert Ascii("string")[0] == 115 && PERSON[0] == 80 && |Ascii("address")| == 7 && |Ascii("uint256")| == 7;
    BaseOfPlain(Ascii("address"));
    BaseOfPlain(Ascii("uint256"));
    BaseOfPlain(Ascii("string"));
  }

  lemma ExampleReach()
    ensures Reachable(EXAMPLE, TRANSACTION) == {TRANSACTION, ASSET, PERSON}
  {
    hide BaseType, Ascii;
    StructNames();
    LeafNames();
    var t := EXAMPLE;
    ReachesSelf(t, TRANSACTION);
    ReachesSelf(t, ASSET);
    ReachesSelf(t, PERSON);
    assert t[TRANSACTION][0].typ == PERSON && t[TRANSACTION][2].typ == ASSET;
    ReachesVia(t, TRANSACTION, PERSON, PERSON);
    ReachesVia(t, TRANSACTION, ASSET, ASSET);
    forall x | Reaches(t, TRANSACTION, x) ensures x in {TRANSACTION, ASSET, PERSON} {
      ReachedIsDeclared(t, TRANSACTION, x);
    }
  }

  lemma ExampleOrder()
    ensures CanonicalOrder(EXAMPLE, TRANSACTION, [TRANSACTION, ASSET, PERSON])
  {
    hide Reachable, BaseType, Ascii;
    StructNames();
    ExampleReach();
    LessExactly(ASSET, PERSON);
    assert [TRANSACTION, ASSET, PERSON][1..] == [ASSET, PERSON] && [ASSET, PERSON][1..] == [PERSON];
    assert {TRANSACTION, ASSET, PERSON} - {TRANSACTION} == {ASSET, PERSON};
    Alone(PERSON);
    assert Lists([ASSET, PERSON], {ASSET, PERSON});
  }

  lemma ExampleFields()
    ensures RenderFields(TRANSACTION_FIELDS) == Ascii("Person from,Person to,Asset tx")
    ensures RenderFields(ASSET_FIELDS) == Ascii("address token,uint256 amount")
    ensures RenderFields(PERSON_FIELDS) == Ascii("address wallet,string name")
  {
    TransactionFields();
    AssetFields();
    PersonFields();
  }

  lemma TransactionFields()
    ensures RenderFields(TRANSACTION_FIELDS) == Ascii("Person from,Person to,Asset tx")
  {
    hide RenderFields;
    ThreeFields(TRANSACTION_FIELDS[0], TRANSACTION_FIELDS[1], TRANSACTION_FIELDS[2]);
  }

  lemma AssetFields()
    ensures RenderFields(ASSET_FIELDS) == Ascii("address token,uint256 amount")
  {
    hide RenderFields;
    TwoFields(ASSET_FIELDS[0], ASSET_FIELDS[1]);
  }

  lemma PersonFields()
    ensures RenderFields(PERSON_FIELDS) == Ascii("address wallet,string name")
  {
    hide RenderFields;
    TwoFields(PERSON_FIELDS[0], PERSON_FIELDS[1]);
  }

  /** The type string that EIP-712 gives as its example for referenced struct types:
      "Transaction(Person from,Person to,Asset tx)Asset(address token,uint256 amount)" and then
      "Person(address wallet,string name)". */
  lemma StandardExample()
    ensures TypeString(EXAMPLE, TRANSACTION)
         == (Ascii("Transaction") + [40] + Ascii("Person from,Person to,Asset tx") + [41])
            + (Ascii("Asset") + [40] + Ascii("address token,uint256 amount") + [41])
            + (Ascii("Person") + [40] + Ascii("address wallet,string name") + [41])
  {
    hide TypeString, Render, RenderFields, CanonicalOrder, Ascii, BaseType;
    StructNames();
    ExampleOrder();
    ExampleFields();
    TypeStringIs(EXAMPLE, TRANSACTION, [TRANSACTION, ASSET, PERSON]);
    RenderThree(EXAMPLE, TRANSACTION, ASSET, PERSON);
  }
}

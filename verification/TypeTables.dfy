/** EIP-712 type tables: the dependency closure of a struct type and its canonical
    type string. */
module TypeTables {
  import opened Wrappers
  import opened Bytes

  type Name = Bytes

  datatype Field = Field(name: Name, typ: Name)

  /** A declared type is a key; an entry without a field list counts as undeclared. */
  type Types = map<Name, seq<Field>>

  const OPEN_BRACKET: byte := 91
  const CLOSE_BRACKET: byte := 93

  function IndexOf(s: Bytes, c: byte): (i: nat)
    ensures i <= |s|
    ensures i < |s| ==> s[i] == c
    ensures c !in s[..i]
  {
    if s == [] then 0 else if s[0] == c then 0 else 1 + IndexOf(s[1..], c)
  }

  /** The type name in front of any array notation. */
  function BaseType(typ: Name): Name {
    typ[..IndexOf(typ, OPEN_BRACKET)]
  }

  predicate IsListType(ft: Name) {
    ft != [] && ft[|ft| - 1] == CLOSE_BRACKET
  }

  function LastIndexOf(s: Bytes, c: byte): (i: Option<nat>)
    ensures i.Some? ==> i.value < |s|
  {
    if s == [] then None
    else if s[|s| - 1] == c then Some(|s| - 1)
    else LastIndexOf(s[..|s| - 1], c)
  }

  /** The type of the elements of a list type, in front of its last bracket. */
  function ElementType(ft: Name): (e: Option<Name>)
    ensures e.Some? ==> |e.value| < |ft|
  {
    if IsListType(ft) && LastIndexOf(ft, OPEN_BRACKET).Some?
    then Some(ft[..LastIndexOf(ft, OPEN_BRACKET).value])
    else None
  }

  /** Array notation starts at the first bracket. */
  lemma BaseTypeExactly(typ: Name)
    ensures OPEN_BRACKET !in BaseType(typ)
    ensures typ == BaseType(typ) || exists rest :: typ == BaseType(typ) + [OPEN_BRACKET] + rest
  {
    var i := IndexOf(typ, OPEN_BRACKET);
    if i < |typ| { assert typ == typ[..i] + [OPEN_BRACKET] + typ[i + 1..]; }
  }

  // ---------------------------------------------------------------- reachability

  /** Declared struct a has a field whose base type is the declared struct b. */
  predicate Refers(t: Types, a: Name, b: Name) {
    a in t && b in t && exists i :: 0 <= i < |t[a]| && BaseType(t[a][i].typ) == b
  }

  ghost predicate IsPath(t: Types, p: seq<Name>) {
    forall i :: 0 <= i < |p| - 1 ==> Refers(t, p[i], p[i + 1])
  }

  ghost predicate PathFromTo(t: Types, p: seq<Name>, a: Name, b: Name) {
    p != [] && p[0] == a && p[|p| - 1] == b && IsPath(t, p)
  }

  /** b is the declared type a, or is reached from it through fields. */
  ghost predicate Reaches(t: Types, a: Name, b: Name) {
    a in t && exists p :: PathFromTo(t, p, a, b)
  }

  lemma ReachesSelf(t: Types, a: Name)
    requires a in t
    ensures Reaches(t, a, a)
  {
    assert PathFromTo(t, [a], a, a);
  }

  lemma ReachesVia(t: Types, a: Name, b: Name, c: Name)
    requires Refers(t, a, b) && Reaches(t, b, c)
    ensures Reaches(t, a, c)
  {
    var p :| PathFromTo(t, p, b, c);
    var q := [a] + p;
    assert forall i :: 0 < i < |q| - 1 ==> q[i] == p[i - 1] && q[i + 1] == p[i];
    assert PathFromTo(t, q, a, c);
  }

  /** A set closed under field references holds everything reachable from its members. */
  lemma {:induction false} PathStaysIn(t: Types, s: set<Name>, p: seq<Name>)
    requires forall x, y :: x in s && Refers(t, x, y) ==> y in s
    requires p != [] && p[0] in s && IsPath(t, p)
    ensures p[|p| - 1] in s
  {
    if |p| > 1 {
      assert Refers(t, p[0], p[1]);
      var q := p[1..];
      forall i | 0 <= i < |q| - 1 ensures Refers(t, q[i], q[i + 1]) {
        assert Refers(t, p[i + 1], p[i + 1 + 1]);
      }
      PathStaysIn(t, s, q);
    }
  }

  ghost function Reachable(t: Types, primary: Name): (r: set<Name>)
    ensures forall x :: x in r <==> Reaches(t, primary, x)
  {
    forall x | Reaches(t, primary, x) ensures x in t { ReachedIsDeclared(t, primary, x); }
    set x | x in t && Reaches(t, primary, x)
  }

  lemma ReachedIsDeclared(t: Types, a: Name, b: Name)
    requires Reaches(t, a, b)
    ensures b in t
  {
    var p :| PathFromTo(t, p, a, b);
    if |p| > 1 {
      assert Refers(t, p[|p| - 2], p[|p| - 2 + 1]);
    }
  }

  // ---------------------------------------------------------------- dependency closure

  /** The map of visited types that the search fills in place. */
  class Visited {
    var names: set<Name>

    constructor ()
      ensures names == {}
    {
      names := {};
    }
  }

  /** `findDependencies`: adds what the search finds to the visited set. Everything added is
      reachable, and every reference out of an added type stays in the set. Termination is by
      the shrinking set of declared types not yet visited, on cyclic tables too. */
  method FindDependencies(t: Types, primary: Name, deps: Visited)
    requires deps.names <= t.Keys
    modifies deps
    ensures old(deps.names) <= deps.names <= t.Keys
    ensures primary in t ==> primary in deps.names
    ensures forall x :: x in deps.names - old(deps.names) ==> Reaches(t, primary, x)
    ensures forall x, y :: x in deps.names - old(deps.names) && Refers(t, x, y) ==> y in deps.names
    decreases t.Keys - deps.names
  {
    if primary in deps.names { return; }
    if primary !in t { return; }
    ghost var before := deps.names;
    deps.names := deps.names + {primary};
    ReachesSelf(t, primary);
    var fields := t[primary];
    for i := 0 to |fields|
      invariant before + {primary} <= deps.names <= t.Keys
      invariant forall x :: x in deps.names - before ==> Reaches(t, primary, x)
      invariant forall x, y :: x in deps.names - before - {primary} && Refers(t, x, y) ==> y in deps.names
      invariant forall j :: 0 <= j < i && BaseType(fields[j].typ) in t ==> BaseType(fields[j].typ) in deps.names
    {
      var baseType := BaseType(fields[i].typ);
      if baseType in t {
        label call:
        assert Refers(t, primary, baseType);
        FindDependencies(t, baseType, deps);
        forall x | x in deps.names - old@call(deps.names) ensures Reaches(t, primary, x) {
          ReachesVia(t, primary, baseType, x);
        }
      }
    }
  }

  predicate Distinct(s: seq<Name>) {
    forall i, j :: 0 <= i < j < |s| ==> s[i] != s[j]
  }

  /** `Dependencies`: exactly the declared types reachable from the primary type, each once,
      in the arbitrary order in which a map is listed. */
  method Dependencies(t: Types, primary: Name) returns (list: seq<Name>)
    ensures Distinct(list)
    ensures forall x :: x in list <==> Reaches(t, primary, x)
  {
    var deps := new Visited();
    FindDependencies(t, primary, deps);
    forall x | Reaches(t, primary, x) ensures x in deps.names {
      var p :| PathFromTo(t, p, primary, x);
      PathStaysIn(t, deps.names, p);
    }
    list := [];
    var rest := deps.names;
    while rest != {}
      invariant Distinct(list)
      invariant rest <= deps.names
      invariant forall x :: x in list <==> x in deps.names - rest
      decreases rest
    {
      var dep :| dep in rest;
      rest := rest - {dep};
      assert forall k :: 0 <= k < |list| ==> list[k] in list;
      list := list + [dep];
    }
  }

  // ---------------------------------------------------------------- sorting

  /** Byte-wise lexicographic order. */
  predicate Less(a: Name, b: Name) {
    b != [] && (a == [] || a[0] < b[0] || (a[0] == b[0] && Less(a[1..], b[1..])))
  }

  lemma {:induction false} LessTotal(a: Name, b: Name)
    ensures a == b || Less(a, b) || Less(b, a)
    ensures !(Less(a, b) && Less(b, a))
  {
    if a != [] && b != [] && a[0] == b[0] {
      LessTotal(a[1..], b[1..]);
      assert a == [a[0]] + a[1..] && b == [b[0]] + b[1..];
    }
  }

  lemma {:induction false} LessTransitive(a: Name, b: Name, c: Name)
    requires Less(a, b) && Less(b, c)
    ensures Less(a, c)
  {
    if a != [] && a[0] == b[0] == c[0] {
      LessTransitive(a[1..], b[1..], c[1..]);
    }
  }

  /** a and b agree in front of position i, where a has ended or has the smaller byte. */
  predicate SmallerAt(a: Name, b: Name, i: nat) {
    i <= |a| && i < |b| && a[..i] == b[..i] && (i == |a| || a[i] < b[i])
  }

  lemma SameHead(a: Name, b: Name, i: nat)
    requires SmallerAt(a, b, i)
    ensures i > 0 ==> a[0] == b[0]
  {
    if i > 0 { assert a[..i][0] == b[..i][0]; }
  }

  ghost predicate Smaller(a: Name, b: Name) {
    exists i: nat :: SmallerAt(a, b, i)
  }

  /** What the order is: the first difference decides, and a prefix comes first. */
  lemma {:induction false} LessExactly(a: Name, b: Name)
    ensures Less(a, b) <==> Smaller(a, b)
  {
    if a != [] && b != [] && a[0] == b[0] {
      LessExactly(a[1..], b[1..]);
      if Less(a, b) {
        var i: nat :| SmallerAt(a[1..], b[1..], i);
        assert a[..i + 1] == [a[0]] + a[1..][..i] && b[..i + 1] == [b[0]] + b[1..][..i];
        assert SmallerAt(a, b, i + 1);
      }
      if i: nat :| SmallerAt(a, b, i) {
        assert i > 0;
        assert a[1..][..i - 1] == a[..i][1..] && b[1..][..i - 1] == b[..i][1..];
        assert SmallerAt(a[1..], b[1..], i - 1);
      }
    } else {
      if Less(a, b) { assert SmallerAt(a, b, 0); }
      if i: nat :| SmallerAt(a, b, i) { SameHead(a, b, i); }
    }
  }

  predicate Ascending(s: seq<Name>) {
    s != [] ==> (forall y :: y in s[1..] ==> Less(s[0], y)) && Ascending(s[1..])
  }

  /** s lists the members of q in strictly ascending order. */
  ghost predicate Lists(s: seq<Name>, q: set<Name>) {
    Ascending(s) && forall x :: x in s <==> x in q
  }

  function Insert(x: Name, s: seq<Name>): seq<Name> {
    if s == [] then [x] else if Less(x, s[0]) then [x] + s else [s[0]] + Insert(x, s[1..])
  }

  /** `sort.Strings` */
  function Sort(s: seq<Name>): seq<Name> {
    if s == [] then [] else Insert(s[0], Sort(s[1..]))
  }

  lemma {:induction false} InsertLists(x: Name, s: seq<Name>)
    requires Ascending(s) && x !in s
    ensures Ascending(Insert(x, s))
    ensures forall y :: y in Insert(x, s) <==> y == x || y in s
  {
    if s != [] {
      LessTotal(x, s[0]);
      if Less(x, s[0]) {
        forall y | y in s[1..] ensures Less(x, y) { LessTransitive(x, s[0], y); }
        assert ([x] + s)[1..] == s;
      } else {
        InsertLists(x, s[1..]);
        assert ([s[0]] + Insert(x, s[1..]))[1..] == Insert(x, s[1..]);
      }
      assert s == [s[0]] + s[1..];
    }
  }

  lemma {:induction false} SortLists(s: seq<Name>)
    requires Distinct(s)
    ensures Ascending(Sort(s))
    ensures forall y :: y in Sort(s) <==> y in s
  {
    if s != [] {
      assert Distinct(s[1..]) by {
        assert forall i, j :: 0 <= i < j < |s| - 1 ==> s[1..][i] == s[i + 1] && s[1..][j] == s[j + 1];
      }
      SortLists(s[1..]);
      assert s[0] !in s[1..];
      InsertLists(s[0], Sort(s[1..]));
      assert s == [s[0]] + s[1..];
    }
  }

  lemma HasMember(s: seq<Name>)
    ensures s == [] || exists x :: x in s
  {
    if s != [] { assert s[0] in s; }
  }

  /** Two ascending listings of one set are the same sequence. */
  lemma {:induction false} ListingUnique(a: seq<Name>, b: seq<Name>)
    requires Ascending(a) && Ascending(b)
    requires forall x :: x in a <==> x in b
    ensures a == b
  {
    if a == [] {
      HasMember(b);
    } else {
      assert a[0] in b;
      var h, k := a[0], b[0];
      assert k in a && a == [h] + a[1..] && b == [k] + b[1..];
      LessTotal(h, k);
      LessTotal(h, h);
      assert h == k;
      forall x ensures x in a[1..] <==> x in b[1..] {
        assert x in a <==> x == h || x in a[1..];
        assert x in b <==> x == h || x in b[1..];
      }
      ListingUnique(a[1..], b[1..]);
    }
  }

  /** Taking one element out of an ascending listing. */
  lemma {:induction false} RemoveAt(s: seq<Name>, i: nat)
    requires i < |s| && Ascending(s)
    ensures Ascending(s[..i] + s[i + 1..])
    ensures forall x :: x in s[..i] + s[i + 1..] <==> x in s && x != s[i]
  {
    hide Less;
    LessTotal(s[0], s[0]);
    assert s == [s[0]] + s[1..];
    if i == 0 {
      assert s[..0] + s[1..] == s[1..];
    } else {
      RemoveAt(s[1..], i - 1);
      assert s[i] in s[1..] && s[i] != s[0];
      var r := s[1..][..i - 1] + s[1..][i..];
      assert s[..i] + s[i + 1..] == [s[0]] + r;
      assert ([s[0]] + r)[1..] == r;
      assert s[i] == s[1..][i - 1];
    }
  }

  lemma {:induction false} ListingExists(q: set<Name>) returns (s: seq<Name>)
    ensures Lists(s, q)
  {
    if q == {} {
      s := [];
    } else {
      var x :| x in q;
      var rest := ListingExists(q - {x});
      InsertLists(x, rest);
      s := Insert(x, rest);
    }
  }

  // ---------------------------------------------------------------- canonical type string

  /** Primary type first, every other reachable type once, in strictly ascending order. */
  ghost predicate CanonicalOrder(t: Types, primary: Name, order: seq<Name>) {
    && order != [] && order[0] == primary
    && Lists(order[1..], Reachable(t, primary) - {primary})
  }

  lemma CanonicalOrderUnique(t: Types, primary: Name, a: seq<Name>, b: seq<Name>)
    requires CanonicalOrder(t, primary, a) && CanonicalOrder(t, primary, b)
    ensures a == b
  {
    ListingUnique(a[1..], b[1..]);
    assert a == [a[0]] + a[1..] && b == [b[0]] + b[1..];
  }

  lemma CanonicalOrderExists(t: Types, primary: Name)
    ensures exists order :: CanonicalOrder(t, primary, order)
  {
    var rest := ListingExists(Reachable(t, primary) - {primary});
    assert ([primary] + rest)[1..] == rest;
    assert CanonicalOrder(t, primary, [primary] + rest);
  }

  function RenderFields(fields: seq<Field>): Bytes {
    if fields == [] then []
    else
      var n := |fields| - 1;
      RenderFields(fields[..n]) + (if n > 0 then [44] else []) + fields[n].typ + [32] + fields[n].name
  }

  function FieldsOf(t: Types, name: Name): seq<Field> {
    if name in t then t[name] else []
  }

  function Render(t: Types, order: seq<Name>): Bytes {
    if order == [] then []
    else
      var n := |order| - 1;
      Render(t, order[..n]) + order[n] + [40] + RenderFields(FieldsOf(t, order[n])) + [41]
  }

  /** The type string of EIP-712, "Definition of encodeType"; empty for an undeclared type. */
  ghost function TypeString(t: Types, primary: Name): Bytes {
    if primary !in t then []
    else
      CanonicalOrderExists(t, primary);
      var order :| CanonicalOrder(t, primary, order);
      Render(t, order)
  }

  lemma TypeStringIs(t: Types, primary: Name, order: seq<Name>)
    requires primary in t && CanonicalOrder(t, primary, order)
    ensures TypeString(t, primary) == Render(t, order)
  {
    hide CanonicalOrder, Render;
    var chosen :| CanonicalOrder(t, primary, chosen) && TypeString(t, primary) == Render(t, chosen);
    CanonicalOrderUnique(t, primary, order, chosen);
  }

  lemma {:induction false} AscendingAt(s: seq<Name>, i: nat, j: nat)
    requires Ascending(s) && i < j < |s|
    ensures Less(s[i], s[j])
  {
    if i == 0 { assert s[j] in s[1..]; } else { AscendingAt(s[1..], i - 1, j - 1); }
  }

  /** The order of a type string without the recursion: the primary type, then every other
      reachable type once, each smaller at the first difference than those behind it. */
  lemma TypeStringSpelled(t: Types, primary: Name) returns (order: seq<Name>)
    requires primary in t
    ensures TypeString(t, primary) == Render(t, order)
    ensures order != [] && order[0] == primary && primary !in order[1..]
    ensures forall x :: x in order <==> Reaches(t, primary, x)
    ensures forall i, j :: 1 <= i < j < |order| ==> Smaller(order[i], order[j])
  {
    hide Render, TypeString, Ascending, Less;
    CanonicalOrderExists(t, primary);
    order :| CanonicalOrder(t, primary, order);
    TypeStringIs(t, primary, order);
    ReachesSelf(t, primary);
    assert order == [primary] + order[1..];
    forall i, j | 1 <= i < j < |order| ensures Smaller(order[i], order[j]) {
      AscendingAt(order[1..], i - 1, j - 1);
      LessExactly(order[i], order[j]);
    }
  }

  /** `EncodeType`: for every order in which the dependencies are listed, sorting, moving the
      primary type to the front and writing field by field gives the one type string. */
  method EncodeType(t: Types, primary: Name) returns (result: Bytes)
    ensures result == TypeString(t, primary)
  {
    var deps := Dependencies(t, primary);
    SortLists(deps);
    deps := Sort(deps);
    ghost var sorted := deps;
    var i := 0;
    while i < |deps| && deps[i] != primary
      invariant i <= |deps|
      invariant primary !in deps[..i]
    {
      i := i + 1;
    }
    if i < |deps| {
      RemoveAt(deps, i);
      deps := [primary] + (deps[..i] + deps[i + 1..]);
    }
    ghost var order := deps;
    if primary in t {
      ReachesSelf(t, primary);
      assert primary in sorted;
      assert order[1..] == sorted[..i] + sorted[i + 1..];
      assert CanonicalOrder(t, primary, order);
      TypeStringIs(t, primary, order);
    } else {
      assert forall x :: !Reaches(t, primary, x);
      HasMember(sorted);
    }
    result := WriteTypes(t, deps);
  }

  /** The nested writing loops. */
  method WriteTypes(t: Types, deps: seq<Name>) returns (result: Bytes)
    ensures result == Render(t, deps)
  {
    hide RenderFields, Render;
    result := [];
    RenderNothing(t);
    for d := 0 to |deps|
      invariant result == Render(t, deps[..d])
    {
      ghost var head := result + deps[d] + [40];
      var fields := FieldsOf(t, deps[d]);
      result := result + deps[d] + [40];
      for i := 0 to |fields|
        invariant result == head + RenderFields(fields[..i])
      {
        RenderFieldsStep(fields, i);
        if i > 0 { result := result + [44]; }
        result := result + fields[i].typ;
        result := result + [32];
        result := result + fields[i].name;
        assert result == head + (RenderFields(fields[..i])
                                 + (if i > 0 then [44] else []) + fields[i].typ + [32] + fields[i].name);
      }
      result := result + [41];
      RenderStep(t, deps, d);
    }
    assert deps[..|deps|] == deps;
  }

  lemma RenderNothing(t: Types)
    ensures Render(t, []) == [] && RenderFields([]) == []
  {
  }

  lemma RenderFieldsStep(fields: seq<Field>, i: nat)
    requires i < |fields|
    ensures RenderFields(fields[..i + 1])
         == RenderFields(fields[..i]) + (if i > 0 then [44] else []) + fields[i].typ + [32] + fields[i].name
  {
    assert fields[..i + 1][..i] == fields[..i];
  }

  lemma RenderStep(t: Types, deps: seq<Name>, d: nat)
    requires d < |deps|
    ensures Render(t, deps[..d + 1])
         == Render(t, deps[..d]) + deps[d] + [40] + RenderFields(FieldsOf(t, deps[d])[..|FieldsOf(t, deps[d])|]) + [41]
  {
    assert deps[..d + 1][..d] == deps[..d];
    assert FieldsOf(t, deps[d])[..|FieldsOf(t, deps[d])|] == FieldsOf(t, deps[d]);
  }
}

/** When encoding ends: an absent struct has no members, so its fields are absent too, and the
    encoder may go down a chain of absent structs for ever. */
module Nesting {
  import opened Wrappers
  import opened Bytes
  import opened TypeTables

  datatype RunEnd = Encodes | Fails | TooDeep

  /** Encoding an absent value of type x, at most d structs deep. Every type that is no
      declared struct refuses an absent value. */
  function AbsentRun(t: Types, x: Name, d: nat): RunEnd
    decreases d, 1, 0
  {
    if x !in t then Fails
    else if d == 0 then TooDeep
    else AbsentFields(t, t[x], |t[x]|, d - 1)
  }

  /** The first n fields in order, up to the first that does not encode. */
  function AbsentFields(t: Types, fields: seq<Field>, n: nat, d: nat): RunEnd
    requires n <= |fields|
    decreases d, 2, n
  {
    if n == 0 then Encodes
    else if AbsentFields(t, fields, n - 1, d) != Encodes then AbsentFields(t, fields, n - 1, d)
    else AbsentRun(t, fields[n - 1].typ, d)
  }

  /** Encoding an absent value of type x comes to an end. */
  ghost predicate Ends(t: Types, x: Name) {
    exists d :: AbsentRun(t, x, d) != TooDeep
  }

  lemma {:induction false} Deeper(t: Types, x: Name, d: nat, e: nat)
    requires AbsentRun(t, x, d) != TooDeep && d <= e
    ensures AbsentRun(t, x, e) == AbsentRun(t, x, d)
    decreases d, 1, 0
  {
    if x in t { DeeperFields(t, t[x], |t[x]|, d - 1, e - 1); }
  }

  lemma {:induction false} DeeperFields(t: Types, fields: seq<Field>, n: nat, d: nat, e: nat)
    requires n <= |fields| && AbsentFields(t, fields, n, d) != TooDeep && d <= e
    ensures AbsentFields(t, fields, n, e) == AbsentFields(t, fields, n, d)
    decreases d, 2, n
  {
    if n > 0 {
      DeeperFields(t, fields, n - 1, d, e);
      if AbsentFields(t, fields, n - 1, d) == Encodes { Deeper(t, fields[n - 1].typ, d, e); }
    }
  }

  ghost function Least(t: Types, x: Name, d: nat): (r: nat)
    requires AbsentRun(t, x, d) != TooDeep
    ensures AbsentRun(t, x, r) == AbsentRun(t, x, d)
    ensures r > 0 ==> AbsentRun(t, x, r - 1) == TooDeep
  {
    if d == 0 || AbsentRun(t, x, d - 1) == TooDeep then d
    else
      Deeper(t, x, d - 1, d);
      Least(t, x, d - 1)
  }

  /** The number of structs an absent value of type x is made of, one inside the other. */
  ghost function Depth(t: Types, x: Name): (r: nat)
    ensures Ends(t, x) ==> AbsentRun(t, x, r) != TooDeep
    ensures forall e :: AbsentRun(t, x, e) != TooDeep ==> r <= e && AbsentRun(t, x, e) == AbsentRun(t, x, r)
    ensures Ends(t, x) ==> (x in t <==> r > 0)
  {
    if !Ends(t, x) then 0
    else
      var d :| AbsentRun(t, x, d) != TooDeep;
      var r := Least(t, x, d);
      LeastIsLeast(t, x, r);
      r
  }

  lemma LeastIsLeast(t: Types, x: Name, r: nat)
    requires AbsentRun(t, x, r) != TooDeep && (r > 0 ==> AbsentRun(t, x, r - 1) == TooDeep)
    ensures forall e :: AbsentRun(t, x, e) != TooDeep ==> r <= e && AbsentRun(t, x, e) == AbsentRun(t, x, r)
  {
    forall e: nat | AbsentRun(t, x, e) != TooDeep ensures r <= e && AbsentRun(t, x, e) == AbsentRun(t, x, r) {
      if e < r { Deeper(t, x, e, r - 1); } else { Deeper(t, x, r, e); }
    }
  }

  /** The depth left for the fields of a struct. */
  ghost function DepthBelow(t: Types, x: Name): nat {
    if x in t && Ends(t, x) then Depth(t, x) - 1 else 0
  }

  lemma AbsentNothing(t: Types, fields: seq<Field>, d: nat)
    ensures AbsentFields(t, fields, 0, d) == Encodes
    ensures forall n :: 0 < n <= |fields| && AbsentFields(t, fields, n - 1, d) != Encodes ==>
              AbsentFields(t, fields, n, d) != Encodes
  {
  }

  lemma {:induction false} FieldsPrefix(t: Types, fields: seq<Field>, m: nat, n: nat, d: nat)
    requires m <= n <= |fields| && AbsentFields(t, fields, m, d) != Encodes
    ensures AbsentFields(t, fields, n, d) == AbsentFields(t, fields, m, d)
    decreases n
  {
    if m < n { FieldsPrefix(t, fields, m, n - 1, d); }
  }

  /** A field that is reached is less deep than its struct. */
  lemma FieldDepth(t: Types, x: Name, i: nat)
    requires x in t && Ends(t, x) && i < |t[x]|
    ensures AbsentFields(t, t[x], i, DepthBelow(t, x)) == Encodes ==>
              var typ := t[x][i].typ;
              && Ends(t, typ) && Depth(t, typ) <= DepthBelow(t, x)
              && AbsentRun(t, typ, Depth(t, typ)) == AbsentFields(t, t[x], i + 1, DepthBelow(t, x))
  {
    var typ, d := t[x][i].typ, DepthBelow(t, x);
    assert AbsentRun(t, x, Depth(t, x)) == AbsentFields(t, t[x], |t[x]|, d);
    if AbsentFields(t, t[x], i, d) == Encodes {
      if AbsentFields(t, t[x], i + 1, d) != Encodes { FieldsPrefix(t, t[x], i + 1, |t[x]|, d); }
      assert AbsentRun(t, typ, d) != TooDeep;
    }
  }

  // ---------------------------------------------------------------- how deep to look

  /** Types that are being encoded on the way to x are deeper than x, so they are others, and
      the depth left is at least the number of types not yet met. */
  lemma {:induction false} DepthLeft(t: Types, x: Name, met: set<Name>)
    requires Ends(t, x) && met <= t.Keys && forall y :: y in met ==> Ends(t, y) && Depth(t, x) < Depth(t, y)
    ensures |met| <= |t.Keys| && AbsentRun(t, x, |t.Keys| - |met|) != TooDeep
    decreases Depth(t, x), 1, 0
  {
    Fewer(met, t.Keys);
    if x in t {
      Fewer(met + {x}, t.Keys);
      assert |met + {x}| == |met| + 1;
      DepthLeftFields(t, x, met, |t[x]|);
    }
  }

  lemma {:induction false} DepthLeftFields(t: Types, x: Name, met: set<Name>, n: nat)
    requires x in t && Ends(t, x) && x !in met && |met| < |t.Keys| && met <= t.Keys
    requires forall y :: y in met ==> Ends(t, y) && Depth(t, x) < Depth(t, y)
    requires n <= |t[x]|
    ensures AbsentFields(t, t[x], n, |t.Keys| - |met| - 1) != TooDeep
    decreases Depth(t, x), 0, n
  {
    var d := |t.Keys| - |met| - 1;
    if n > 0 {
      DepthLeftFields(t, x, met, n - 1);
      if AbsentFields(t, t[x], n - 1, d) == Encodes {
        AlsoBelow(t, x, n - 1, d);
        FieldDepth(t, x, n - 1);
        assert |met + {x}| == |met| + 1;
        DepthLeft(t, t[x][n - 1].typ, met + {x});
      }
    }
  }

  lemma Fewer(a: set<Name>, b: set<Name>)
    requires a <= b
    ensures |a| <= |b|
  {
    assert a + (b - a) == b;
  }

  /** Fields that encode at some depth encode at the depth their struct leaves them. */
  lemma AlsoBelow(t: Types, x: Name, i: nat, d: nat)
    requires x in t && Ends(t, x) && i <= |t[x]| && AbsentFields(t, t[x], i, d) == Encodes
    ensures AbsentFields(t, t[x], i, DepthBelow(t, x)) == Encodes
  {
    var e := DepthBelow(t, x);
    assert AbsentRun(t, x, Depth(t, x)) == AbsentFields(t, t[x], |t[x]|, e);
    if AbsentFields(t, t[x], i, e) == TooDeep { FieldsPrefix(t, t[x], i, |t[x]|, e); }
    if d <= e { DeeperFields(t, t[x], i, d, e); } else { DeeperFields(t, t[x], i, e, d); }
  }

  /** Encoding an absent value ends exactly when it ends within as many structs as there are
      declared types. */
  lemma EndsExactly(t: Types, x: Name)
    ensures Ends(t, x) <==> AbsentRun(t, x, |t.Keys|) != TooDeep
  {
    if Ends(t, x) { DepthLeft(t, x, {}); }
  }

  /** The verdict on an absent value, at the depth that is always enough. */
  predicate AbsentEnds(t: Types, x: Name) {
    AbsentRun(t, x, |t.Keys|) != TooDeep
  }

  lemma AbsentWhole(t: Types, x: Name)
    requires x in t && AbsentEnds(t, x)
    ensures AbsentFields(t, t[x], |t[x]|, |t.Keys|) == AbsentRun(t, x, |t.Keys|)
  {
    Deeper(t, x, |t.Keys|, |t.Keys| + 1);
  }

  /** A field that an absent struct comes to is less deep than the struct. */
  lemma ReachedField(t: Types, x: Name, i: nat)
    requires x in t && AbsentEnds(t, x) && i < |t[x]|
    ensures AbsentFields(t, t[x], i, |t.Keys|) == Encodes ==>
              Ends(t, t[x][i].typ) && AbsentEnds(t, t[x][i].typ) && Depth(t, t[x][i].typ) < Depth(t, x)
  {
    EndsExactly(t, x);
    if AbsentFields(t, t[x], i, |t.Keys|) == Encodes {
      AlsoBelow(t, x, i, |t.Keys|);
      FieldDepth(t, x, i);
      EndsExactly(t, t[x][i].typ);
    }
  }

  // ---------------------------------------------------------------- chains of absent structs

  /** An absent x comes to its field of struct type y: the fields in front of it encode. */
  ghost predicate Leads(t: Types, x: Name, y: Name) {
    && x in t && y in t
    && exists i, d :: 0 <= i < |t[x]| && t[x][i].typ == y && AbsentFields(t, t[x], i, d) == Encodes
  }

  ghost predicate Chain(t: Types, p: seq<Name>) {
    p != [] && forall i :: 0 <= i < |p| - 1 ==> Leads(t, p[i], p[i + 1])
  }

  lemma LeadsDown(t: Types, x: Name, y: Name)
    requires Leads(t, x, y) && Ends(t, x)
    ensures Ends(t, y) && Depth(t, y) < Depth(t, x)
  {
    var i, d :| 0 <= i < |t[x]| && t[x][i].typ == y && AbsentFields(t, t[x], i, d) == Encodes;
    AlsoBelow(t, x, i, d);
    FieldDepth(t, x, i);
  }

  lemma {:induction false} ChainDown(t: Types, p: seq<Name>, i: nat, j: nat)
    requires Chain(t, p) && Ends(t, p[0]) && i <= j < |p|
    ensures Ends(t, p[i]) && Ends(t, p[j])
    ensures i < j ==> Depth(t, p[j]) < Depth(t, p[i])
    decreases j
  {
    hide Ends, Depth, Leads;
    if i < j {
      ChainDown(t, p, i, j - 1);
      assert Leads(t, p[j - 1], p[j - 1 + 1]);
      LeadsDown(t, p[j - 1], p[j]);
    } else if i > 0 {
      ChainDown(t, p, i - 1, i - 1);
      assert Leads(t, p[i - 1], p[i - 1 + 1]);
      LeadsDown(t, p[i - 1], p[i]);
    }
  }

  lemma NextField(t: Types, fields: seq<Field>, i: nat, d: nat)
    requires i < |fields|
    ensures AbsentFields(t, fields, i, d) == Encodes ==>
              AbsentFields(t, fields, i + 1, d) == AbsentRun(t, fields[i].typ, d)
  {
  }

  /** If no depth is enough for the first n fields, one of them is reached and never ends. */
  lemma {:induction false} StuckField(t: Types, x: Name, n: nat)
    requires x in t && n <= |t[x]| && forall d :: AbsentFields(t, t[x], n, d) == TooDeep
    ensures exists y :: Leads(t, x, y) && !Ends(t, y)
  {
    AbsentNothing(t, t[x], 0);
    if n > 0 {
      var i := n - 1;
      var y := t[x][i].typ;
      if d: nat :| AbsentFields(t, t[x], i, d) == Encodes {
        if e: nat :| AbsentRun(t, y, e) != TooDeep {
          var m: nat := if d < e then e else d;
          NextField(t, t[x], i, m);
          DeeperFields(t, t[x], i, d, m);
          Deeper(t, y, e, m);
        } else {
          assert AbsentRun(t, y, 0) == TooDeep;
          assert Leads(t, x, y) && !Ends(t, y);
        }
      } else {
        forall d: nat ensures AbsentFields(t, t[x], i, d) == TooDeep {
          assert AbsentFields(t, t[x], n, d) == TooDeep;
        }
        StuckField(t, x, i);
      }
    }
  }

  lemma NeverEndsLeads(t: Types, x: Name)
    requires !Ends(t, x)
    ensures exists y :: Leads(t, x, y) && !Ends(t, y)
  {
    assert AbsentRun(t, x, 0) == TooDeep;
    forall d: nat ensures AbsentFields(t, t[x], |t[x]|, d) == TooDeep {
      assert AbsentRun(t, x, d + 1) == TooDeep;
    }
    StuckField(t, x, |t[x]|);
  }

  lemma {:induction false} LongChain(t: Types, x: Name, n: nat) returns (p: seq<Name>)
    requires !Ends(t, x)
    ensures Chain(t, p) && p[0] == x && |p| == n + 1
    ensures forall i :: 0 <= i < |p| ==> p[i] in t
    decreases n
  {
    hide Ends, Leads;
    NeverEndsLeads(t, x);
    var y :| Leads(t, x, y) && !Ends(t, y);
    LeadsDeclared(t, x, y);
    if n == 0 {
      p := [x];
    } else {
      var q := LongChain(t, y, n - 1);
      p := [x] + q;
      forall i | 0 <= i < |p| - 1 ensures Leads(t, p[i], p[i + 1]) {
        if i > 0 { assert p[i] == q[i - 1] && p[i + 1] == q[i - 1 + 1]; }
      }
    }
  }

  lemma LeadsDeclared(t: Types, x: Name, y: Name)
    requires Leads(t, x, y)
    ensures x in t && y in t
  {
  }

  lemma {:induction false} DistinctFits(p: seq<Name>, s: set<Name>)
    requires Distinct(p) && forall i :: 0 <= i < |p| ==> p[i] in s
    ensures |p| <= |s|
  {
    if p != [] {
      var n := |p| - 1;
      forall i | 0 <= i < n ensures p[..n][i] in s - {p[n]} {
        assert p[i] != p[n];
      }
      DistinctFits(p[..n], s - {p[n]});
    }
  }

  /** Encoding an absent value never ends exactly when a chain of absent structs comes to some
      struct type a second time. */
  lemma NeverEndsExactly(t: Types, x: Name)
    ensures !Ends(t, x) <==> exists p :: Chain(t, p) && p[0] == x && !Distinct(p)
  {
    hide Ends, Leads;
    if Ends(t, x) {
      forall p | Chain(t, p) && p[0] == x ensures Distinct(p) {
        forall i, j | 0 <= i < j < |p| ensures p[i] != p[j] { ChainDown(t, p, i, j); }
      }
    } else {
      var p := LongChain(t, x, |t.Keys|);
      if Distinct(p) { DistinctFits(p, t.Keys); }
    }
  }

  // ---------------------------------------------------------------- tables that end

  /** Fields that are declared structs have a lower rank than the struct they are in. */
  ghost predicate Ranks(t: Types, rank: map<Name, nat>) {
    && t.Keys <= rank.Keys
    && forall s, i :: s in t && 0 <= i < |t[s]| && t[s][i].typ in t ==> rank[t[s][i].typ] < rank[s]
  }

  /** In tables without cycles of direct nesting every absent value ends. References through
      arrays may be cyclic. */
  lemma {:induction false} AcyclicEnds(t: Types, rank: map<Name, nat>, x: Name)
    requires Ranks(t, rank)
    ensures Ends(t, x)
    decreases if x in t then rank[x] + 1 else 0
  {
    if !Ends(t, x) {
      NeverEndsLeads(t, x);
      var y :| Leads(t, x, y) && !Ends(t, y);
      LeadsDeclared(t, x, y);
      AcyclicEnds(t, rank, y);
    }
  }

  /** A struct ends when, behind fields that encode, it has one that is no declared struct: the
      absent value is refused there, whatever comes after. */
  lemma PlainFieldEnds(t: Types, x: Name, i: nat, d: nat)
    requires x in t && i < |t[x]| && t[x][i].typ !in t && AbsentFields(t, t[x], i, d) == Encodes
    ensures Ends(t, x)
  {
    assert AbsentFields(t, t[x], i + 1, d) == Fails;
    FieldsPrefix(t, t[x], i + 1, |t[x]|, d);
    assert AbsentRun(t, x, d + 1) == Fails;
  }
}

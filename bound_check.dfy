/// The bound checks of the sub-circuit test: every field element is mapped
/// to its absolute representative `min(x, p - x)`, the representatives are
/// collected in a set, and the largest is reported.
module BoundCheck {
  import opened R1cs

  datatype Option<T> = None | Some(value: T)

  /** The absolute representative of a field element: `x < p - x ? x : p - x`. */
  function Rep(x: int): (r: int)
    ensures r == x || r == P - x
    ensures 0 <= x < P ==> 0 <= r <= (P - 1) / 2
  {
    if x < P - x then x else P - x
  }

  /** `x` and `p - x` have the same representative. */
  lemma RepSymmetric(x: int)
    requires 0 < x < P
    ensures Rep(x) == Rep(P - x)
  {
    assert P % 2 == 1;
  }

  /** Only zero is represented by zero. */
  lemma RepZero(x: int)
    requires 0 <= x < P
    ensures Rep(x) == 0 <==> x == 0
  {
  }

  /** The representative is congruent to `x` or to `-x` modulo `p`. */
  lemma RepCongruent(x: int)
    ensures Rep(x) % P == x % P || Rep(x) % P == (-x) % P
  {
    if Rep(x) != x {
      ModAddMultiple(-x, 1);
    }
  }

  /** `args.reduce((m, e) => e > m ? e : m)` continued from `m` over `rest`. */
  function Reduce(m: int, rest: seq<int>): (r: int)
    ensures r == m || r in rest
    ensures r >= m && forall e :: e in rest ==> e <= r
    decreases |rest|
  {
    if rest == [] then m
    else
      assert forall e :: e in rest ==> e == rest[0] || e in rest[1..];
      Reduce(if rest[0] > m then rest[0] else m, rest[1..])
  }

  /** `bigIntMax`: `reduce` without an initial value, so the list must be non-empty. */
  function BigIntMax(args: seq<int>): (m: int)
    requires |args| > 0
    ensures m in args
    ensures forall e :: e in args ==> e <= m
  {
    assert forall e :: e in args ==> e == args[0] || e in args[1..];
    Reduce(args[0], args[1..])
  }

  predicate Distinct(s: seq<int>)
  {
    forall i, j :: 0 <= i < j < |s| ==> s[i] != s[j]
  }

  function Elems(s: seq<int>): set<int>
  {
    set x | x in s
  }

  /** `Set.prototype.add` on a set kept in insertion order. */
  function SetAdd(s: seq<int>, x: int): (r: seq<int>)
    ensures Elems(r) == Elems(s) + {x}
    ensures Distinct(s) ==> Distinct(r)
    ensures |s| <= |r| && r[..|s|] == s
  {
    if x in s then s else s + [x]
  }

  /** The representatives of the coefficients of one linear combination. */
  function Representatives(lc: LinComb): set<int>
  {
    set k | k in lc :: Rep(lc[k])
  }

  /** The representatives of the coefficients of one constraint. */
  function ConEntries(con: Constraint): set<int>
  {
    Representatives(con.a) + Representatives(con.b) + Representatives(con.c)
  }

  /** The representatives of every coefficient of every constraint. */
  function EntrySet(cs: seq<Constraint>): set<int>
  {
    if cs == [] then {} else EntrySet(cs[..|cs| - 1]) + ConEntries(cs[|cs| - 1])
  }

  lemma ConEntriesMembership(con: Constraint, x: int)
    ensures x in ConEntries(con) <==> exists m, k :: k in Row(con, m) && x == Rep(Row(con, m)[k])
  {
    if x in Representatives(con.a) {
      var k :| k in con.a && x == Rep(con.a[k]);
      assert k in Row(con, A);
    }
    if x in Representatives(con.b) {
      var k :| k in con.b && x == Rep(con.b[k]);
      assert k in Row(con, B);
    }
    if x in Representatives(con.c) {
      var k :| k in con.c && x == Rep(con.c[k]);
      assert k in Row(con, C);
    }
    if exists m, k :: k in Row(con, m) && x == Rep(Row(con, m)[k]) {
      var m, k :| k in Row(con, m) && x == Rep(Row(con, m)[k]);
      match m
      case A => assert x in Representatives(con.a);
      case B => assert x in Representatives(con.b);
      case C => assert x in Representatives(con.c);
    }
  }

  /** A value is collected exactly when it represents some coefficient. */
  lemma {:induction false} EntrySetMembership(cs: seq<Constraint>, x: int)
    ensures x in EntrySet(cs) <==>
              exists i, m, k :: 0 <= i < |cs| && k in Row(cs[i], m) && x == Rep(Row(cs[i], m)[k])
  {
    if x in EntrySet(cs) {
      EntrySetSound(cs, x);
    }
    if exists i, m, k :: 0 <= i < |cs| && k in Row(cs[i], m) && x == Rep(Row(cs[i], m)[k]) {
      var i, m, k :| 0 <= i < |cs| && k in Row(cs[i], m) && x == Rep(Row(cs[i], m)[k]);
      EntrySetComplete(cs, i, m, k);
    }
  }

  lemma {:induction false} EntrySetSound(cs: seq<Constraint>, x: int)
    requires x in EntrySet(cs)
    ensures exists i, m, k :: 0 <= i < |cs| && k in Row(cs[i], m) && x == Rep(Row(cs[i], m)[k])
  {
    var init, last := cs[..|cs| - 1], |cs| - 1;
    if x in EntrySet(init) {
      EntrySetSound(init, x);
      var i, m, k :| 0 <= i < |init| && k in Row(init[i], m) && x == Rep(Row(init[i], m)[k]);
      assert cs[i] == init[i];
    } else {
      ConEntriesMembership(cs[last], x);
      var m, k :| k in Row(cs[last], m) && x == Rep(Row(cs[last], m)[k]);
      assert 0 <= last < |cs|;
    }
  }

  lemma {:induction false} EntrySetComplete(cs: seq<Constraint>, i: nat, m: Matrix, k: nat)
    requires i < |cs| && k in Row(cs[i], m)
    ensures Rep(Row(cs[i], m)[k]) in EntrySet(cs)
  {
    var init, last := cs[..|cs| - 1], |cs| - 1;
    if i < last {
      assert init[i] == cs[i];
      EntrySetComplete(init, i, m, k);
    } else {
      ConEntriesMembership(cs[last], Rep(Row(cs[i], m)[k]));
    }
  }

  /** Adds the representative of every value of `lc`, in some key order. */
  method AddValues(entries: seq<int>, lc: LinComb) returns (r: seq<int>)
    requires Distinct(entries)
    ensures Distinct(r)
    ensures Elems(r) == Elems(entries) + Representatives(lc)
  {
    r := entries;
    var todo := lc.Keys;
    while todo != {}
      invariant todo <= lc.Keys
      invariant Distinct(r)
      invariant Elems(r) == Elems(entries) + (set k | k in lc && k !in todo :: Rep(lc[k]))
      decreases |todo|
    {
      var k :| k in todo;
      r := SetAdd(r, Rep(lc[k]));
      todo := todo - {k};
      assert (set k' | k' in lc && k' !in todo :: Rep(lc[k']))
          == (set k' | k' in lc && k' !in todo + {k} :: Rep(lc[k'])) + {Rep(lc[k])};
    }
    assert (set k | k in lc && k !in todo :: Rep(lc[k])) == Representatives(lc);
  }

  /** `r1cs_bound_check`: the largest representative of any coefficient of
      A, B or C; `None` where `bigIntMax` of an empty set would throw. */
  method R1csBoundCheck(cs: seq<Constraint>) returns (max: Option<int>)
    ensures max.None? <==> EntrySet(cs) == {}
    ensures max.Some? ==> max.value in EntrySet(cs)
    ensures max.Some? ==> forall i, m, k :: 0 <= i < |cs| && k in Row(cs[i], m) ==>
                            Rep(Row(cs[i], m)[k]) <= max.value
  {
    var entries: seq<int> := [];
    for i := 0 to |cs|
      invariant Distinct(entries)
      invariant Elems(entries) == EntrySet(cs[..i])
    {
      var t1 := cs[i];
      entries := AddValues(entries, t1.a);
      entries := AddValues(entries, t1.b);
      entries := AddValues(entries, t1.c);
      assert cs[..i + 1][..i] == cs[..i];
    }
    assert cs[..|cs|] == cs;
    if |entries| == 0 {
      max := None;
    } else {
      assert entries[0] in Elems(entries);
      max := Some(BigIntMax(entries));
      forall i, m, k | 0 <= i < |cs| && k in Row(cs[i], m)
        ensures Rep(Row(cs[i], m)[k]) <= max.value
      {
        EntrySetMembership(cs, Rep(Row(cs[i], m)[k]));
        assert Rep(Row(cs[i], m)[k]) in entries;
      }
    }
  }

  /** `witness_bound_check`: the largest representative of any witness value;
      `None` for an empty witness. */
  method WitnessBoundCheck(values: seq<int>) returns (max: Option<int>)
    ensures max.None? <==> values == []
    ensures max.Some? ==> exists i :: 0 <= i < |values| && max.value == Rep(values[i])
    ensures max.Some? ==> forall i :: 0 <= i < |values| ==> Rep(values[i]) <= max.value
  {
    var entries: seq<int> := [];
    for i := 0 to |values|
      invariant Distinct(entries)
      invariant forall x :: x in entries <==> exists j :: 0 <= j < i && x == Rep(values[j])
    {
      entries := SetAdd(entries, Rep(values[i]));
    }
    if values != [] {
      assert Rep(values[0]) in entries;
    }
    if |entries| == 0 {
      max := None;
    } else {
      max := Some(BigIntMax(entries));
      forall i | 0 <= i < |values|
        ensures Rep(values[i]) <= max.value
      {
        assert Rep(values[i]) in entries;
      }
    }
  }
}

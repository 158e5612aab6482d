/** json_value_equals and json_value_deep_copy. */
module JsonEquality {
  import opened Options
  import opened JsonTree
  import opened Doubles

  /** Numbers are compared up to a tolerance, after their difference has been rounded. */
  function Equals(round: real -> real, a: Json, b: Json): bool
    decreases a
  {
    match (a, b)
    case (Array(p), Array(q)) =>
      |p| == |q| && forall i :: 0 <= i < |p| ==> Equals(round, p[i], q[i])
    case (Object(p), Object(q)) =>
      |p| == |q| && forall i :: 0 <= i < |p| ==> EqualsUnder(round, a, p[i].name, q)
    case (String(s), String(t)) => s == t
    case (Boolean(x), Boolean(y)) => x == y
    case (Number(x), Number(y)) => Near(round, x, y)
    case (Null, Null) => true
    case _ => false
  }

  /** The values two objects hold under a name; a missing one has the error type and equals nothing. */
  function EqualsUnder(round: real -> real, a: Json, name: string, q: seq<Member>): bool
    requires a.Object?
    decreases a, 0
  {
    var x, y := Find(a.members, name), Find(q, name);
    x.Some? && y.Some? && Equals(round, x.value, y.value)
  }

  // ----- names -----

  ghost function Names(ms: seq<Member>): set<string> {
    set i | 0 <= i < |ms| :: ms[i].name
  }

  lemma {:induction false} NamesCount(ms: seq<Member>)
    requires DistinctNames(ms)
    ensures |Names(ms)| == |ms|
  {
    if ms != [] {
      NamesCount(ms[1..]);
      assert Names(ms) == {ms[0].name} + Names(ms[1..]);
      assert ms[0].name !in Names(ms[1..]);
    }
  }

  lemma FindNames(ms: seq<Member>, name: string)
    ensures Find(ms, name).Some? <==> name in Names(ms)
  {
  }

  /** Equally many distinct names on both sides, all of the first among the second: the same names. */
  lemma NamesPigeonhole(p: seq<Member>, q: seq<Member>)
    requires DistinctNames(p) && DistinctNames(q) && |p| == |q|
    requires Names(p) <= Names(q)
    ensures Names(p) == Names(q)
  {
    NamesCount(p);
    NamesCount(q);
    assert Names(q) == Names(p) + (Names(q) - Names(p));
  }

  // ----- equality compares objects as maps -----

  /** Every object in the tree has distinct names. */
  ghost predicate Distinct(v: Json) {
    match v
    case Array(items) => forall i :: 0 <= i < |items| ==> Distinct(items[i])
    case Object(ms) => DistinctNames(ms) && forall i :: 0 <= i < |ms| ==> Distinct(ms[i].value)
    case _ => true
  }

  lemma WellFormedIsDistinct(v: Json)
    requires WellFormed(v)
    ensures Distinct(v)
  {
  }

  /** The same names, and under each of them values that are equal. */
  ghost predicate SameMap(round: real -> real, p: seq<Member>, q: seq<Member>) {
    && Names(p) == Names(q)
    && forall name :: name in Names(p) ==>
         Find(p, name).Some? && Find(q, name).Some? && Equals(round, Find(p, name).value, Find(q, name).value)
  }

  /**
   json_value_equals walks the names of its left argument only. With distinct names on both sides
   that is enough to compare the objects as maps from names to values.
   */
  lemma ObjectsEqualAsMaps(round: real -> real, p: seq<Member>, q: seq<Member>)
    requires DistinctNames(p) && DistinctNames(q)
    ensures Equals(round, Object(p), Object(q)) <==> SameMap(round, p, q)
  {
    var a := Object(p);
    if Equals(round, a, Object(q)) {
      forall name | name in Names(p)
        ensures name in Names(q) && EqualsUnder(round, a, name, q)
      {
        var i :| 0 <= i < |p| && p[i].name == name;
        assert EqualsUnder(round, a, p[i].name, q);
        FindNames(q, name);
      }
      NamesPigeonhole(p, q);
    }
    if SameMap(round, p, q) {
      NamesCount(p);
      NamesCount(q);
      forall i | 0 <= i < |p|
        ensures EqualsUnder(round, a, p[i].name, q)
      {
        assert p[i].name in Names(p);
      }
    }
  }

  lemma FoundIsDistinct(ms: seq<Member>, name: string)
    requires Distinct(Object(ms)) && Find(ms, name).Some?
    ensures Distinct(Find(ms, name).value) && Find(ms, name).value < Object(ms)
  {
  }

  lemma {:induction false} EqualsSymmetric(round: real -> real, a: Json, b: Json)
    requires IsRounding(round) && Distinct(a) && Distinct(b)
    ensures Equals(round, a, b) <==> Equals(round, b, a)
    decreases a
  {
    match (a, b)
    case (Array(p), Array(q)) =>
      if |p| == |q| {
        forall i | 0 <= i < |p|
          ensures Equals(round, p[i], q[i]) <==> Equals(round, q[i], p[i])
        {
          EqualsSymmetric(round, p[i], q[i]);
        }
      }
    case (Object(p), Object(q)) =>
      ObjectsEqualAsMaps(round, p, q);
      ObjectsEqualAsMaps(round, q, p);
      forall name | Find(p, name).Some? && Find(q, name).Some?
        ensures var (x, y) := (Find(p, name).value, Find(q, name).value);
                Equals(round, x, y) <==> Equals(round, y, x)
      {
        FoundIsDistinct(p, name);
        FoundIsDistinct(q, name);
        EqualsSymmetric(round, Find(p, name).value, Find(q, name).value);
      }
    case (Number(x), Number(y)) => NearSymmetric(round, x, y);
    case _ =>
  }

  /** Without distinct names the walk over the left names alone is not symmetric. */
  lemma DuplicateNamesBreakSymmetry(round: real -> real)
    ensures var a := Object([Member("x", Null), Member("x", Null)]);
            var b := Object([Member("x", Null), Member("y", Null)]);
            Equals(round, a, b) && !Equals(round, b, a)
  {
    var p, q := [Member("x", Null), Member("x", Null)], [Member("x", Null), Member("y", Null)];
    assert Find(p, "x") == Some(Null) && Find(q, "x") == Some(Null);
    assert q[1].name == "y" && p[0].name != "y" && p[1].name != "y";
    assert !EqualsUnder(round, Object(q), q[1].name, p);
  }

  // ----- member order -----

  /** The same value but for the order of members, at any depth. */
  ghost predicate Reordered(a: Json, b: Json)
    decreases a
  {
    match (a, b)
    case (Array(p), Array(q)) => |p| == |q| && forall i :: 0 <= i < |p| ==> Reordered(p[i], q[i])
    case (Object(p), Object(q)) => |p| == |q| && forall i :: 0 <= i < |p| ==> ReorderedAmong(a, i, q)
    case _ => a == b
  }

  /** The i-th member of an object has a counterpart of the same name. */
  ghost predicate ReorderedAmong(a: Json, i: nat, q: seq<Member>)
    requires a.Object? && i < |a.members|
    decreases a, 0
  {
    exists j :: 0 <= j < |q| && q[j].name == a.members[i].name && Reordered(a.members[i].value, q[j].value)
  }

  lemma {:induction false} ReorderedReflexive(v: Json)
    ensures Reordered(v, v)
  {
    match v
    case Array(items) =>
      forall i | 0 <= i < |items|
        ensures Reordered(items[i], items[i])
      {
        ReorderedReflexive(items[i]);
      }
    case Object(ms) =>
      forall i | 0 <= i < |ms|
        ensures ReorderedAmong(v, i, ms)
      {
        ReorderedReflexive(ms[i].value);
      }
    case _ =>
  }

  /** In particular an object with its members permuted. */
  lemma PermutedIsReordered(p: seq<Member>, q: seq<Member>)
    requires multiset(p) == multiset(q)
    ensures Reordered(Object(p), Object(q))
  {
    assert |p| == |multiset(p)| == |q|;
    forall i | 0 <= i < |p|
      ensures ReorderedAmong(Object(p), i, q)
    {
      assert p[i] in multiset(p);
      assert p[i] in q;
      var j :| 0 <= j < |q| && q[j] == p[i];
      ReorderedReflexive(p[i].value);
    }
  }

  /** Reordered objects have the same names, and reordered values under each of them. */
  lemma ReorderedFound(p: seq<Member>, q: seq<Member>)
    requires DistinctNames(p) && DistinctNames(q) && Reordered(Object(p), Object(q))
    ensures Names(p) == Names(q)
    ensures forall name :: name in Names(p) ==>
              Find(p, name).Some? && Find(q, name).Some? && Reordered(Find(p, name).value, Find(q, name).value)
  {
    forall name | name in Names(p)
      ensures name in Names(q) && Find(p, name).Some? && Find(q, name).Some?
      ensures Reordered(Find(p, name).value, Find(q, name).value)
    {
      var i :| 0 <= i < |p| && p[i].name == name;
      assert ReorderedAmong(Object(p), i, q);
      var j :| 0 <= j < |q| && q[j].name == p[i].name && Reordered(p[i].value, q[j].value);
      FindAt(p, i);
      FindAt(q, j);
    }
    NamesPigeonhole(p, q);
  }

  lemma {:induction false} LeftIgnoresOrder(round: real -> real, a: Json, b: Json, c: Json)
    requires Distinct(a) && Distinct(b) && Distinct(c) && Reordered(a, b)
    ensures Equals(round, a, c) <==> Equals(round, b, c)
    decreases a
  {
    match (a, b)
    case (Array(p), Array(q)) =>
      if c.Array? && |c.items| == |p| {
        forall i | 0 <= i < |p|
          ensures Equals(round, p[i], c.items[i]) <==> Equals(round, q[i], c.items[i])
        {
          LeftIgnoresOrder(round, p[i], q[i], c.items[i]);
        }
      }
    case (Object(p), Object(q)) =>
      if c.Object? {
        MembersIgnoreOrder(round, p, q, c.members);
      }
    case _ =>
  }

  lemma {:induction false} MembersIgnoreOrder(round: real -> real, p: seq<Member>, q: seq<Member>, r: seq<Member>)
    requires Distinct(Object(p)) && Distinct(Object(q)) && Distinct(Object(r)) && Reordered(Object(p), Object(q))
    ensures Equals(round, Object(p), Object(r)) <==> Equals(round, Object(q), Object(r))
    decreases Object(p), 0
  {
    ObjectsEqualAsMaps(round, p, r);
    ObjectsEqualAsMaps(round, q, r);
    ReorderedFound(p, q);
    hide Equals, Reordered;
    forall name | name in Names(p) && Find(r, name).Some?
      ensures var z := Find(r, name).value;
              Equals(round, Find(p, name).value, z) <==> Equals(round, Find(q, name).value, z)
    {
      FoundIsDistinct(p, name);
      FoundIsDistinct(q, name);
      FoundIsDistinct(r, name);
      LeftIgnoresOrder(round, Find(p, name).value, Find(q, name).value, Find(r, name).value);
    }
  }

  /** Reordering members anywhere in a tree changes no comparison with it, on either side. */
  lemma EqualsIgnoresOrder(round: real -> real, a: Json, b: Json, c: Json)
    requires IsRounding(round) && Distinct(a) && Distinct(b) && Distinct(c) && Reordered(a, b)
    ensures Equals(round, a, c) <==> Equals(round, b, c)
    ensures Equals(round, c, a) <==> Equals(round, c, b)
  {
    hide *;
    LeftIgnoresOrder(round, a, b, c);
    EqualsSymmetric(round, a, c);
    EqualsSymmetric(round, b, c);
  }

  // ----- what equality means -----

  /**
   The same value but for the order of members and for differences between numbers that, rounded, are
   below a millionth.
   */
  ghost predicate Alike(round: real -> real, a: Json, b: Json)
    decreases a
  {
    match (a, b)
    case (Number(x), Number(y)) =>
      var d := round(x - y);
      -round(0.000001) < d < round(0.000001)
    case (Array(p), Array(q)) => |p| == |q| && forall i :: 0 <= i < |p| ==> Alike(round, p[i], q[i])
    case (Object(p), Object(q)) => |p| == |q| && forall i :: 0 <= i < |p| ==> AlikeAmong(round, a, i, q)
    case _ => a == b
  }

  ghost predicate AlikeAmong(round: real -> real, a: Json, i: nat, q: seq<Member>)
    requires a.Object? && i < |a.members|
    decreases a, 0
  {
    exists j :: 0 <= j < |q| && q[j].name == a.members[i].name && Alike(round, a.members[i].value, q[j].value)
  }

  /** json_value_equals holds between exactly the trees that are alike. */
  lemma {:induction false} EqualsExactlyWhen(round: real -> real, a: Json, b: Json)
    requires Distinct(a) && Distinct(b)
    ensures Equals(round, a, b) <==> Alike(round, a, b)
    decreases a
  {
    match (a, b)
    case (Number(x), Number(y)) => NearIs(round, x, y);
    case (Array(p), Array(q)) =>
      if |p| == |q| {
        forall i | 0 <= i < |p|
          ensures Equals(round, p[i], q[i]) <==> Alike(round, p[i], q[i])
        {
          EqualsExactlyWhen(round, p[i], q[i]);
        }
      }
    case (Object(p), Object(q)) =>
      forall i | 0 <= i < |p|
        ensures EqualsUnder(round, a, p[i].name, q) <==> AlikeAmong(round, a, i, q)
      {
        MemberExactlyWhen(round, a, b, i);
      }
    case _ =>
  }

  lemma NearIs(round: real -> real, x: real, y: real)
    ensures Near(round, x, y) <==> -round(0.000001) < round(x - y) < round(0.000001)
  {
  }

  lemma {:induction false} MemberExactlyWhen(round: real -> real, a: Json, b: Json, i: nat)
    requires a.Object? && b.Object? && Distinct(a) && Distinct(b) && i < |a.members|
    ensures EqualsUnder(round, a, a.members[i].name, b.members) <==> AlikeAmong(round, a, i, b.members)
    decreases a, 0
  {
    hide Equals, Alike;
    var (p, q) := (a.members, b.members);
    FindAt(p, i);
    forall j | 0 <= j < |q| && q[j].name == p[i].name
      ensures Find(q, p[i].name) == Some(q[j].value)
      ensures Equals(round, p[i].value, q[j].value) <==> Alike(round, p[i].value, q[j].value)
    {
      FindAt(q, j);
      EqualsExactlyWhen(round, p[i].value, q[j].value);
    }
  }

  ghost predicate NumberFree(v: Json) {
    match v
    case Number(_) => false
    case Array(items) => forall i :: 0 <= i < |items| ==> NumberFree(items[i])
    case Object(ms) => forall i :: 0 <= i < |ms| ==> NumberFree(ms[i].value)
    case _ => true
  }

  /** Without numbers, equality is being the same value but for the order of members. */
  lemma {:induction false} NumberFreeAlike(round: real -> real, a: Json, b: Json)
    requires NumberFree(a)
    ensures Alike(round, a, b) <==> Reordered(a, b)
    decreases a
  {
    match (a, b)
    case (Array(p), Array(q)) =>
      if |p| == |q| {
        forall i | 0 <= i < |p|
          ensures Alike(round, p[i], q[i]) <==> Reordered(p[i], q[i])
        {
          NumberFreeAlike(round, p[i], q[i]);
        }
      }
    case (Object(p), Object(q)) =>
      forall i | 0 <= i < |p|
        ensures AlikeAmong(round, a, i, q) <==> ReorderedAmong(a, i, q)
      {
        forall j | 0 <= j < |q|
          ensures Alike(round, p[i].value, q[j].value) <==> Reordered(p[i].value, q[j].value)
        {
          NumberFreeAlike(round, p[i].value, q[j].value);
        }
      }
    case _ =>
  }

  lemma NumberFreeEqualsExactlyWhen(round: real -> real, a: Json, b: Json)
    requires Distinct(a) && Distinct(b) && NumberFree(a)
    ensures Equals(round, a, b) <==> Reordered(a, b)
  {
    hide *;
    EqualsExactlyWhen(round, a, b);
    NumberFreeAlike(round, a, b);
  }

  // ----- an equivalence, as far as it is one -----

  lemma {:induction false} EqualsReflexive(round: real -> real, v: Json)
    requires IsRounding(round) && Distinct(v)
    ensures Equals(round, v, v)
  {
    match v
    case Array(items) =>
      forall i | 0 <= i < |items|
        ensures Equals(round, items[i], items[i])
      {
        EqualsReflexive(round, items[i]);
      }
    case Object(ms) =>
      forall i | 0 <= i < |ms|
        ensures EqualsUnder(round, v, ms[i].name, ms)
      {
        FindAt(ms, i);
        EqualsReflexive(round, ms[i].value);
      }
    case Number(n) => NearWithin(round, n, n);
    case _ =>
  }

  // ----- deep copy -----

  /**
   json_value_deep_copy. It succeeds exactly when every object in the tree has distinct names,
   because copies are added by name, and then the copy is the same tree, member order included.
   */
  method DeepCopy(v: Json) returns (copy: Option<Json>)
    ensures copy.Some? <==> Distinct(v)
    ensures copy.Some? ==> copy.value == v
    decreases v
  {
    match v
    case Array(items) =>
      var added: seq<Json> := [];
      for i := 0 to |items|
        invariant added == items[..i] && forall j :: 0 <= j < i ==> Distinct(items[j])
      {
        var item := DeepCopy(items[i]);
        if item.None? {
          return None;
        }
        added := added + [item.value];
      }
      copy := Some(Array(added));
    case Object(ms) =>
      copy := CopyMembers(v);
    case _ =>
      copy := Some(v);
  }

  method CopyMembers(v: Json) returns (copy: Option<Json>)
    requires v.Object?
    ensures copy.Some? <==> Distinct(v)
    ensures copy.Some? ==> copy.value == v
    decreases v, 0
  {
    hide Equals, EqualsUnder;
    var ms := v.members;
    var added: seq<Member> := [];
    for i := 0 to |ms|
      invariant added == ms[..i] && DistinctNames(added)
      invariant forall j :: 0 <= j < i ==> Distinct(ms[j].value)
    {
      var key := ms[i].name;
      FindWithin(ms, i);
      var value := Find(ms, key).value;
      assert value < v;
      var item := DeepCopy(value);
      if item.None? || Find(added, key).Some? {
        return None;
      }
      added := added + [Member(key, item.value)];
    }
    copy := Some(Object(added));
  }

  /** A name not met before is found at its own index. */
  lemma {:induction false} FindWithin(ms: seq<Member>, i: nat)
    requires i < |ms|
    ensures Find(ms, ms[i].name).Some?
    ensures Find(ms[..i], ms[i].name).None? ==> Find(ms, ms[i].name) == Some(ms[i].value)
  {
    if i > 0 {
      FindWithin(ms[1..], i - 1);
      assert ms[1..][..i - 1] == ms[..i][1..];
    }
  }
}

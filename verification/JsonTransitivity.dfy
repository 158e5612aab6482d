/** From which trees json_value_equals is transitive: that is decided by the numbers in them. */
module JsonTransitivity {
  import opened Options
  import opened JsonTree
  import opened Doubles
  import opened JsonEquality
  import P = JsonParser

  ghost predicate AllNumbers(v: Json, p: real -> bool) {
    match v
    case Number(n) => p(n)
    case Array(items) => forall i :: 0 <= i < |items| ==> AllNumbers(items[i], p)
    case Object(ms) => forall i :: 0 <= i < |ms| ==> AllNumbers(ms[i].value, p)
    case _ => true
  }

  lemma {:induction false} AllNumbersImply(v: Json, p: real -> bool, q: real -> bool, r: real -> bool)
    requires AllNumbers(v, p) && AllNumbers(v, q)
    requires forall n :: p(n) && q(n) ==> r(n)
    ensures AllNumbers(v, r)
  {
    match v
    case Array(items) =>
      forall i | 0 <= i < |items|
        ensures AllNumbers(items[i], r)
      {
        AllNumbersImply(items[i], p, q, r);
      }
    case Object(ms) =>
      forall i | 0 <= i < |ms|
        ensures AllNumbers(ms[i].value, r)
      {
        AllNumbersImply(ms[i].value, p, q, r);
      }
    case _ =>
  }

  lemma FoundHasNumbers(ms: seq<Member>, name: string, p: real -> bool)
    requires AllNumbers(Object(ms), p) && Find(ms, name).Some?
    ensures AllNumbers(Find(ms, name).value, p)
  {
  }

  /** Trees of double numbers with distinct names, as the library builds them. */
  ghost predicate DoubleTree(v: Json) {
    Distinct(v) && AllNumbers(v, IsDouble)
  }

  /** What equals something equal to `a` equals `a`. */
  ghost predicate TransitiveFrom(round: real -> real, a: Json) {
    forall b, c :: DoubleTree(b) && DoubleTree(c) && Equals(round, a, b) && Equals(round, b, c) ==> Equals(round, a, c)
  }

  ghost function TransitiveNumber(round: real -> real): real -> bool {
    x => TransitiveAt(round, x)
  }

  // ----- from the numbers to the tree -----

  lemma {:induction false} EqualsTransitive(round: real -> real, a: Json, b: Json, c: Json)
    requires Distinct(a) && DoubleTree(b) && DoubleTree(c) && AllNumbers(a, TransitiveNumber(round))
    requires Equals(round, a, b) && Equals(round, b, c)
    ensures Equals(round, a, c)
    decreases a
  {
    hide IsDouble, TransitiveAt, Near;
    match a
    case Number(x) =>
      NumberTransitive(round, x, b.n, c.n);
    case Array(p) =>
      forall i | 0 <= i < |p|
        ensures Equals(round, p[i], c.items[i])
      {
        assert Equals(round, p[i], b.items[i]) && Equals(round, b.items[i], c.items[i]);
        EqualsTransitive(round, p[i], b.items[i], c.items[i]);
      }
    case Object(p) =>
      ObjectsTransitive(round, p, b.members, c.members);
    case _ =>
  }

  lemma NumberTransitive(round: real -> real, x: real, y: real, z: real)
    requires TransitiveNumber(round)(x) && IsDouble(y) && IsDouble(z) && Near(round, x, y) && Near(round, y, z)
    ensures Near(round, x, z)
  {
    hide IsDouble, Near;
  }

  lemma {:induction false} ObjectsTransitive(round: real -> real, p: seq<Member>, q: seq<Member>, r: seq<Member>)
    requires Distinct(Object(p)) && DoubleTree(Object(q)) && DoubleTree(Object(r))
    requires AllNumbers(Object(p), TransitiveNumber(round))
    requires Equals(round, Object(p), Object(q)) && Equals(round, Object(q), Object(r))
    ensures Equals(round, Object(p), Object(r))
    decreases Object(p), 0
  {
    hide IsDouble, TransitiveAt, Near;
    ObjectsEqualAsMaps(round, p, q);
    ObjectsEqualAsMaps(round, q, r);
    ObjectsEqualAsMaps(round, p, r);
    hide Equals;
    forall name | name in Names(p)
      ensures Equals(round, Find(p, name).value, Find(r, name).value)
    {
      FoundIsDistinct(p, name);
      FoundIsDistinct(q, name);
      FoundIsDistinct(r, name);
      FoundHasNumbers(p, name, TransitiveNumber(round));
      FoundHasNumbers(q, name, IsDouble);
      FoundHasNumbers(r, name, IsDouble);
      EqualsTransitive(round, Find(p, name).value, Find(q, name).value, Find(r, name).value);
    }
  }

  // ----- trees that differ in their numbers only -----

  /** A tree with a function applied to each of its numbers. */
  ghost function Mapped(v: Json, f: real -> real): (r: Json)
    ensures r.Object? <==> v.Object?
    ensures r.Array? <==> v.Array?
    decreases v, 0
  {
    match v
    case Number(n) => Number(f(n))
    case Array(items) => Array(seq(|items|, i requires 0 <= i < |items| => Mapped(items[i], f)))
    case Object(ms) => Object(MappedMembers(ms, f))
    case _ => v
  }

  ghost function MappedMembers(ms: seq<Member>, f: real -> real): (r: seq<Member>)
    ensures |r| == |ms|
    ensures forall i :: 0 <= i < |ms| ==> r[i] == Member(ms[i].name, Mapped(ms[i].value, f))
    decreases ms, 1
  {
    if ms == [] then [] else [Member(ms[0].name, Mapped(ms[0].value, f))] + MappedMembers(ms[1..], f)
  }

  lemma {:induction false} FindMapped(ms: seq<Member>, f: real -> real, name: string)
    ensures Find(MappedMembers(ms, f), name) ==
            if Find(ms, name).Some? then Some(Mapped(Find(ms, name).value, f)) else None
  {
    hide Mapped;
    if ms != [] {
      FindMapped(ms[1..], f, name);
      assert MappedMembers(ms, f)[1..] == MappedMembers(ms[1..], f);
    }
  }

  lemma {:induction false} MappedToItself(v: Json, f: real -> real)
    requires forall n :: f(n) == n
    ensures Mapped(v, f) == v
  {
    match v
    case Array(items) =>
      forall i | 0 <= i < |items|
        ensures Mapped(items[i], f) == items[i]
      {
        MappedToItself(items[i], f);
      }
    case Object(ms) =>
      forall i | 0 <= i < |ms|
        ensures MappedMembers(ms, f)[i] == ms[i]
      {
        MappedToItself(ms[i].value, f);
      }
      assert MappedMembers(ms, f) == ms;
    case _ =>
  }

  ghost predicate KeepsDoubles(f: real -> real) {
    forall n :: IsDouble(n) ==> IsDouble(f(n))
  }

  lemma {:induction false} MappedTree(v: Json, f: real -> real)
    requires DoubleTree(v) && KeepsDoubles(f)
    ensures DoubleTree(Mapped(v, f))
  {
    hide IsDouble;
    match v
    case Array(items) =>
      forall i | 0 <= i < |items|
        ensures DoubleTree(Mapped(items[i], f))
      {
        MappedTree(items[i], f);
      }
    case Object(ms) =>
      forall i | 0 <= i < |ms|
        ensures DoubleTree(Mapped(ms[i].value, f))
      {
        MappedTree(ms[i].value, f);
      }
    case _ =>
  }

  /** Where two functions take a number near each other. */
  ghost function NearAfter(round: real -> real, f: real -> real, g: real -> real): (near: real -> bool)
    ensures forall n :: near(n) <==> Near(round, f(n), g(n))
  {
    n => Near(round, f(n), g(n))
  }

  /** Such trees are equal exactly when all their numbers are near each other. */
  lemma {:induction false} MappedEquals(round: real -> real, v: Json, f: real -> real, g: real -> real)
    requires Distinct(v)
    ensures Equals(round, Mapped(v, f), Mapped(v, g)) <==> AllNumbers(v, NearAfter(round, f, g))
    decreases v
  {
    hide Near, Distinct, Equals, Mapped, NearAfter;
    match v
    case Number(n) =>
      NumbersMapped(round, n, f, g);
    case Array(items) =>
      forall i | 0 <= i < |items|
        ensures Equals(round, Mapped(items[i], f), Mapped(items[i], g)) <==>
                AllNumbers(items[i], NearAfter(round, f, g))
      {
        ItemIsDistinct(items, i);
        MappedEquals(round, items[i], f, g);
      }
      ItemsMapped(round, items, f, g);
    case Object(ms) =>
      forall i | 0 <= i < |ms|
        ensures EqualsUnder(round, Mapped(v, f), ms[i].name, Mapped(v, g).members) <==>
                AllNumbers(ms[i].value, NearAfter(round, f, g))
      {
        MemberIsDistinct(ms, i);
        MappedEquals(round, ms[i].value, f, g);
        FoundMapped(round, ms, f, g, i);
      }
      MembersMapped(round, ms, f, g);
    case _ =>
      OthersMapped(round, v, f, g);
  }

  lemma NumbersMapped(round: real -> real, n: real, f: real -> real, g: real -> real)
    ensures Equals(round, Mapped(Number(n), f), Mapped(Number(n), g)) <==> NearAfter(round, f, g)(n)
  {
    hide Near, NearAfter, Equals;
    EqualNumbers(round, f(n), g(n));
  }

  lemma EqualNumbers(round: real -> real, x: real, y: real)
    ensures Equals(round, Number(x), Number(y)) <==> Near(round, x, y)
  {
    hide Near;
  }

  lemma OthersMapped(round: real -> real, v: Json, f: real -> real, g: real -> real)
    requires !v.Number? && !v.Array? && !v.Object?
    ensures Equals(round, Mapped(v, f), Mapped(v, g))
  {
  }

  lemma ItemsMapped(round: real -> real, items: seq<Json>, f: real -> real, g: real -> real)
    ensures Equals(round, Mapped(Array(items), f), Mapped(Array(items), g)) <==>
            forall i :: 0 <= i < |items| ==> Equals(round, Mapped(items[i], f), Mapped(items[i], g))
  {
    var p, q := Mapped(Array(items), f).items, Mapped(Array(items), g).items;
    assert |p| == |q| == |items|;
    assert forall i :: 0 <= i < |items| ==> p[i] == Mapped(items[i], f) && q[i] == Mapped(items[i], g);
    hide Mapped, Near;
  }

  lemma MembersMapped(round: real -> real, ms: seq<Member>, f: real -> real, g: real -> real)
    ensures Equals(round, Mapped(Object(ms), f), Mapped(Object(ms), g)) <==>
            forall i :: 0 <= i < |ms| ==>
              EqualsUnder(round, Mapped(Object(ms), f), ms[i].name, Mapped(Object(ms), g).members)
  {
    hide *;
    MappedObject(ms, f);
    MappedObject(ms, g);
    ObjectsCompare(round, MappedMembers(ms, f), MappedMembers(ms, g));
  }

  lemma ObjectsCompare(round: real -> real, p: seq<Member>, q: seq<Member>)
    requires |p| == |q|
    ensures Equals(round, Object(p), Object(q)) <==>
            forall i :: 0 <= i < |p| ==> EqualsUnder(round, Object(p), p[i].name, q)
  {
    hide EqualsUnder;
  }

  lemma ItemIsDistinct(items: seq<Json>, i: nat)
    requires Distinct(Array(items)) && i < |items|
    ensures Distinct(items[i])
  {
  }

  lemma MemberIsDistinct(ms: seq<Member>, i: nat)
    requires Distinct(Object(ms)) && i < |ms|
    ensures Distinct(ms[i].value) && DistinctNames(ms)
  {
  }

  lemma FoundMapped(round: real -> real, ms: seq<Member>, f: real -> real, g: real -> real, i: nat)
    requires DistinctNames(ms) && i < |ms|
    ensures EqualsUnder(round, Mapped(Object(ms), f), ms[i].name, Mapped(Object(ms), g).members) <==>
            Equals(round, Mapped(ms[i].value, f), Mapped(ms[i].value, g))
  {
    hide *;
    FindMapped(ms, f, ms[i].name);
    FindMapped(ms, g, ms[i].name);
    FindAt(ms, i);
    MappedObject(ms, f);
    MappedObject(ms, g);
    FoundCompare(round, MappedMembers(ms, f), MappedMembers(ms, g), ms[i].name);
  }

  lemma MappedObject(ms: seq<Member>, f: real -> real)
    ensures Mapped(Object(ms), f) == Object(MappedMembers(ms, f))
  {
  }

  lemma FoundCompare(round: real -> real, p: seq<Member>, q: seq<Member>, name: string)
    requires Find(p, name).Some? && Find(q, name).Some?
    ensures EqualsUnder(round, Object(p), name, q) <==> Equals(round, Find(p, name).value, Find(q, name).value)
  {
    hide Equals, Find;
  }

  // ----- exactly the trees of large numbers -----

  /** Two steps from a number that is not too large, as functions of the number. */
  ghost function Target(x: real): (r: (real, real))
    requires IsDouble(x) && !BeyondSparse(x)
    ensures IsDouble(r.0) && IsDouble(r.1)
    ensures Abs(x - r.0) <= TwoTo(-20) && Abs(r.0 - r.1) <= TwoTo(-20) && Abs(x - r.1) >= EPSILON
  {
    StepsExist(x);
    var y, z :| IsDouble(y) && IsDouble(z)
                && Abs(x - y) <= TwoTo(-20) && Abs(y - z) <= TwoTo(-20) && Abs(x - z) >= EPSILON;
    (y, z)
  }

  lemma StepsExist(x: real)
    requires IsDouble(x) && !BeyondSparse(x)
    ensures exists y, z :: IsDouble(y) && IsDouble(z)
              && Abs(x - y) <= TwoTo(-20) && Abs(y - z) <= TwoTo(-20) && Abs(x - z) >= EPSILON
  {
    var y, z := Steps(x);
  }

  ghost function FirstStep(x: real): real {
    if IsDouble(x) && !BeyondSparse(x) then Target(x).0 else x
  }

  ghost function SecondStep(x: real): real {
    if IsDouble(x) && !BeyondSparse(x) then Target(x).1 else x
  }

  function Unchanged(x: real): real {
    x
  }

  lemma StepsAreNear(round: real -> real, x: real)
    requires IsRounding(round) && IsDouble(x)
    ensures IsDouble(FirstStep(x)) && IsDouble(SecondStep(x))
    ensures NearAfter(round, Unchanged, FirstStep)(x) && NearAfter(round, FirstStep, SecondStep)(x)
    ensures NearAfter(round, Unchanged, SecondStep)(x) ==> BeyondSparse(x)
  {
    hide IsDouble, IsRounding, Near, BeyondSparse, TwoTo, Target, NearAfter;
    NearWithin(round, x, FirstStep(x));
    NearWithin(round, FirstStep(x), SecondStep(x));
    if !BeyondSparse(x) {
      FarBeyond(round, x, SecondStep(x));
    }
  }

  lemma StepsKeepDoubles(round: real -> real)
    requires IsRounding(round)
    ensures KeepsDoubles(FirstStep) && KeepsDoubles(SecondStep)
  {
    hide IsDouble, IsRounding, FirstStep, SecondStep, NearAfter, BeyondSparse;
    forall n | IsDouble(n)
      ensures IsDouble(FirstStep(n)) && IsDouble(SecondStep(n))
    {
      StepsAreNear(round, n);
    }
  }

  /** Two steps taken from every number of a tree: each is an equality, both together only beyond 2^33. */
  lemma StepsInTree(round: real -> real, a: Json) returns (b: Json, c: Json)
    requires IsRounding(round) && DoubleTree(a)
    ensures DoubleTree(b) && DoubleTree(c) && Equals(round, a, b) && Equals(round, b, c)
    ensures Equals(round, a, c) ==> AllNumbers(a, BeyondSparse)
  {
    hide Equals, Mapped, IsDouble, IsRounding, Near, BeyondSparse, FirstStep, SecondStep, Distinct, AllNumbers;
    b, c := Mapped(a, FirstStep), Mapped(a, SecondStep);
    hide KeepsDoubles;
    StepsKeepDoubles(round);
    MappedTree(a, FirstStep);
    MappedTree(a, SecondStep);
    MappedToItself(a, Unchanged);
    StepsCompare(round, a);
  }

  lemma StepsCompare(round: real -> real, a: Json)
    requires IsRounding(round) && DoubleTree(a)
    ensures Equals(round, Mapped(a, Unchanged), Mapped(a, FirstStep))
    ensures Equals(round, Mapped(a, FirstStep), Mapped(a, SecondStep))
    ensures Equals(round, Mapped(a, Unchanged), Mapped(a, SecondStep)) ==> AllNumbers(a, BeyondSparse)
  {
    hide Equals, Mapped, IsDouble, IsRounding, BeyondSparse, FirstStep, SecondStep, Distinct, AllNumbers, NearAfter;
    forall n | IsDouble(n)
      ensures NearAfter(round, Unchanged, FirstStep)(n) && NearAfter(round, FirstStep, SecondStep)(n)
      ensures NearAfter(round, Unchanged, SecondStep)(n) ==> BeyondSparse(n)
    {
      StepsAreNear(round, n);
    }
    MappedEquals(round, a, Unchanged, FirstStep);
    MappedEquals(round, a, FirstStep, SecondStep);
    MappedEquals(round, a, Unchanged, SecondStep);
    AllNumbersImply(a, IsDouble, IsDouble, NearAfter(round, Unchanged, FirstStep));
    AllNumbersImply(a, IsDouble, IsDouble, NearAfter(round, FirstStep, SecondStep));
    if Equals(round, Mapped(a, Unchanged), Mapped(a, SecondStep)) {
      AllNumbersImply(a, IsDouble, NearAfter(round, Unchanged, SecondStep), BeyondSparse);
    }
  }

  lemma LargeNumbersTransitive(round: real -> real, a: Json)
    requires IsRounding(round) && DoubleTree(a) && AllNumbers(a, BeyondSparse)
    ensures AllNumbers(a, TransitiveNumber(round))
  {
    hide IsDouble, IsRounding, BeyondSparse, Distinct, TransitiveAt, AllNumbers;
    forall n | IsDouble(n) && BeyondSparse(n)
      ensures TransitiveNumber(round)(n)
    {
      TransitiveAtExactlyWhen(round, n);
    }
    AllNumbersImply(a, IsDouble, BeyondSparse, TransitiveNumber(round));
  }

  /**
   Among trees of doubles, equality is transitive from exactly those all of whose numbers exceed 2^33
   in magnitude, the trees without numbers among them.
   */
  lemma TransitiveExactlyWhen(round: real -> real, a: Json)
    requires IsRounding(round) && DoubleTree(a)
    ensures TransitiveFrom(round, a) <==> AllNumbers(a, BeyondSparse)
  {
    hide Equals, IsDouble, IsRounding, BeyondSparse, Distinct, AllNumbers, TransitiveNumber;
    if AllNumbers(a, BeyondSparse) {
      LargeNumbersTransitive(round, a);
      forall b, c | DoubleTree(b) && DoubleTree(c) && Equals(round, a, b) && Equals(round, b, c)
        ensures Equals(round, a, c)
      {
        EqualsTransitive(round, a, b, c);
      }
    }
    var b, c := StepsInTree(round, a);
  }

  /** The smallest instance: three concrete numbers. */
  lemma NumbersNotTransitive(round: real -> real)
    requires IsRounding(round)
    ensures Equals(round, Number(0.0), Number(0.00000095367431640625))
    ensures Equals(round, Number(0.00000095367431640625), Number(0.0000019073486328125))
    ensures !Equals(round, Number(0.0), Number(0.0000019073486328125))
  {
    hide IsRounding, Near, TwoTo;
    FinePowers();
    NearWithin(round, 0.0, 0.00000095367431640625);
    NearWithin(round, 0.00000095367431640625, 0.0000019073486328125);
    FarBeyond(round, 0.0, 0.0000019073486328125);
  }

  // ----- trees that have been parsed -----

  /**
   The trees the parser produces have distinct names, so that equality is one of maps; when their
   numbers are doubles, transitivity is decided by the magnitude of these.
   */
  lemma ParsedTreesCompare(round: real -> real, io: P.NumberIO, t: string, u: string)
    requires IsRounding(round) && P.ParseText(io, t).Some? && P.ParseText(io, u).Some?
    ensures var a, b := P.ParseText(io, t).value, P.ParseText(io, u).value;
            && Distinct(a) && Distinct(b)
            && Equals(round, a, a) && (Equals(round, a, b) <==> Equals(round, b, a))
            && (AllNumbers(a, IsDouble) ==> (TransitiveFrom(round, a) <==> AllNumbers(a, BeyondSparse)))
  {
    hide *;
    hide DoubleTree;
    P.AcceptedText(io, t);
    P.AcceptedText(io, u);
    var a, b := P.ParseText(io, t).value, P.ParseText(io, u).value;
    WellFormedIsDistinct(a);
    WellFormedIsDistinct(b);
    EqualsReflexive(round, a);
    EqualsSymmetric(round, a, b);
    if AllNumbers(a, IsDouble) {
      DoubleTreeIf(a);
      TransitiveExactlyWhen(round, a);
    }
  }

  lemma DoubleTreeIf(a: Json)
    requires Distinct(a) && AllNumbers(a, IsDouble)
    ensures DoubleTree(a)
  {
  }
}

/**
 The object operations of parson.c as functions on the member list, and dotted paths over them.
 A dotted name addresses the member named after the last dot, inside nested objects.
 */
module JsonPaths {
  import opened Options
  import opened CString
  import opened JsonTree

  // ----- one object -----

  /** json_object_set_value: overwrite the value beside the name, or add a member at the end. */
  function Set(ms: seq<Member>, name: string, v: Json): seq<Member> {
    if ms == [] then [Member(name, v)]
    else if ms[0].name == name then [Member(name, v)] + ms[1..]
    else [ms[0]] + Set(ms[1..], name, v)
  }

  /** The first index with this name, or the length. */
  function IndexOf(ms: seq<Member>, name: string): (i: nat)
    ensures i <= |ms|
    ensures i < |ms| ==> ms[i].name == name
    ensures forall j :: 0 <= j < i ==> ms[j].name != name
  {
    if ms == [] || ms[0].name == name then 0 else 1 + IndexOf(ms[1..], name)
  }

  /** json_object_remove: the last member takes the place of the removed one. */
  function Remove(ms: seq<Member>, name: string): seq<Member>
    requires Find(ms, name).Some?
  {
    var i, last := IndexOf(ms, name), |ms| - 1;
    if i != last then ms[i := ms[last]][..last] else ms[..last]
  }

  /** After setting a name, that name finds the value and every other name finds what it did. */
  lemma {:induction false} FindAfterSet(ms: seq<Member>, name: string, v: Json, k: string)
    ensures Find(Set(ms, name, v), k) == if k == name then Some(v) else Find(ms, k)
  {
    if ms != [] && ms[0].name != name {
      FindAfterSet(ms[1..], name, v, k);
    }
  }

  lemma {:induction false} FindAfterAppend(ms: seq<Member>, m: Member, k: string)
    ensures Find(ms + [m], k) == if Find(ms, k).Some? then Find(ms, k) else if k == m.name then Some(m.value) else None
  {
    if ms == [] {
      assert ms + [m] == [m];
    } else {
      assert (ms + [m])[1..] == ms[1..] + [m];
      FindAfterAppend(ms[1..], m, k);
    }
  }

  /** Appending a new name and then setting it is setting it. */
  lemma {:induction false} SetAfterAppend(ms: seq<Member>, name: string, v: Json, w: Json)
    requires Find(ms, name).None?
    ensures Set(ms + [Member(name, v)], name, w) == Set(ms, name, w)
  {
    if ms == [] {
      assert ms + [Member(name, v)] == [Member(name, v)];
    } else {
      assert (ms + [Member(name, v)])[1..] == ms[1..] + [Member(name, v)];
      SetAfterAppend(ms[1..], name, v, w);
    }
  }

  lemma {:induction false} SetToSame(ms: seq<Member>, name: string)
    requires Find(ms, name).Some?
    ensures Set(ms, name, Find(ms, name).value) == ms
  {
    if ms[0].name != name {
      SetToSame(ms[1..], name);
    }
  }

  /** The last member takes the place of the one removed, and all others keep theirs. */
  lemma RemoveKeepsPlaces(ms: seq<Member>, i: nat)
    requires DistinctNames(ms) && i < |ms|
    ensures var rest := Remove(ms, ms[i].name);
            && |rest| == |ms| - 1
            && (i < |rest| ==> rest[i] == ms[|ms| - 1])
            && forall j :: 0 <= j < |rest| && j != i ==> rest[j] == ms[j]
  {
    hide IndexOf;
    var k := IndexOf(ms, ms[i].name);
    assert k == i by {
      NameAt(ms, i);
    }
  }

  lemma NameAt(ms: seq<Member>, i: nat)
    requires DistinctNames(ms) && i < |ms|
    ensures IndexOf(ms, ms[i].name) == i
  {
    var k := IndexOf(ms, ms[i].name);
  }

  /** Removing a name takes exactly that name out of the map, and keeps names distinct. */
  lemma FindAfterRemove(ms: seq<Member>, name: string, k: string)
    requires DistinctNames(ms) && Find(ms, name).Some?
    ensures DistinctNames(Remove(ms, name)) && |Remove(ms, name)| == |ms| - 1
    ensures Find(Remove(ms, name), k) == if k == name then None else Find(ms, k)
  {
    var i, last := IndexOf(ms, name), |ms| - 1;
    var rs := Remove(ms, name);
    RemoveIs(ms, name);
    hide Remove;
    if Find(rs, k).Some? {
      var j :| 0 <= j < last && rs[j].name == k && rs[j].value == Find(rs, k).value;
      FindAt(ms, if j == i then last else j);
    } else if k != name && Find(ms, k).Some? {
      StillFound(ms, name, k);
    }
  }

  lemma StillFound(ms: seq<Member>, name: string, k: string)
    requires DistinctNames(ms) && Find(ms, name).Some? && Find(ms, k).Some? && k != name
    ensures Find(Remove(ms, name), k).Some?
  {
    RemoveIs(ms, name);
    hide Remove;
    var j :| 0 <= j < |ms| && ms[j].name == k;
    assert Remove(ms, name)[if j == |ms| - 1 then IndexOf(ms, name) else j].name == k;
  }

  lemma SetKeepsWellFormed(ms: seq<Member>, name: string, v: Json)
    requires WellFormed(Object(ms)) && NulFree(name) && WellFormed(v)
    ensures WellFormed(Object(Set(ms, name, v)))
    ensures forall j :: 0 <= j < |Set(ms, name, v)| ==>
              Set(ms, name, v)[j].name == name || (j < |ms| && Set(ms, name, v)[j].name == ms[j].name)
  {
    hide Set, IndexOf;
    SetIs(ms, name, v);
    if IndexOf(ms, name) == |ms| {
      AppendKeepsWellFormed(ms, name, v);
    } else {
      ReplaceKeepsWellFormed(ms, IndexOf(ms, name), v);
    }
  }

  lemma AppendKeepsWellFormed(ms: seq<Member>, name: string, v: Json)
    requires WellFormed(Object(ms)) && NulFree(name) && WellFormed(v)
    requires forall j :: 0 <= j < |ms| ==> ms[j].name != name
    ensures WellFormed(Object(ms + [Member(name, v)]))
  {
    hide NulFree;
  }

  lemma ReplaceKeepsWellFormed(ms: seq<Member>, i: nat, v: Json)
    requires WellFormed(Object(ms)) && WellFormed(v) && i < |ms|
    ensures WellFormed(Object(ms[i := Member(ms[i].name, v)]))
  {
    hide NulFree;
  }

  lemma {:induction false} SetIs(ms: seq<Member>, name: string, v: Json)
    ensures var i := IndexOf(ms, name);
            Set(ms, name, v) == if i < |ms| then ms[i := Member(name, v)] else ms + [Member(name, v)]
  {
    var m := Member(name, v);
    if ms == [] {
      assert ms + [m] == [m];
    } else if ms[0].name != name {
      var rest, j := ms[1..], IndexOf(ms[1..], name);
      SetIs(rest, name, v);
      hide Set, IndexOf;
      assert ms == [ms[0]] + rest;
      if j < |rest| {
        assert [ms[0]] + rest[j := m] == ms[j + 1 := m];
      } else {
        assert [ms[0]] + (rest + [m]) == ms + [m];
      }
    } else {
      assert [m] + ms[1..] == ms[0 := m];
    }
  }

  lemma FirstIndexAfterSet(ms: seq<Member>, name: string, v: Json)
    ensures IndexOf(Set(ms, name, v), name) == IndexOf(ms, name) < |Set(ms, name, v)|
    decreases |ms|
  {
    if ms != [] && ms[0].name != name {
      FirstIndexAfterSet(ms[1..], name, v);
    }
  }

  lemma RemoveIs(ms: seq<Member>, name: string)
    requires DistinctNames(ms) && Find(ms, name).Some?
    ensures IndexOf(ms, name) < |ms| == |Remove(ms, name)| + 1
    ensures forall j :: 0 <= j < |ms| - 1 ==>
              Remove(ms, name)[j] == ms[if j == IndexOf(ms, name) then |ms| - 1 else j]
    ensures DistinctNames(Remove(ms, name))
  {
    hide Find;
    IndexFinds(ms, name);
  }

  // ----- whole runs of operations on one object, as a finite map -----

  const STARTING_CAPACITY: nat := 16

  /** A JSON_Object: its members in order and the room there is for them. */
  datatype Store = Store(members: seq<Member>, capacity: nat)

  datatype Operation =
    | AddOp(name: string, value: Json)
    | SetOp(name: string, value: Json)
    | RemoveOp(name: string)
    | ClearOp
    | ResizeOp(capacity: nat)

  /** The capacity once there is room for one more member. */
  function Grown(count: nat, capacity: nat): (c: nat)
    ensures c >= capacity && (count <= capacity ==> count < c)
  {
    if count < capacity then capacity
    else if capacity * 2 < STARTING_CAPACITY then STARTING_CAPACITY
    else capacity * 2
  }

  function Appended(s: Store, m: Member): Store {
    Store(s.members + [m], Grown(|s.members|, s.capacity))
  }

  /** What an operation leaves; a refused one leaves everything. */
  function Apply(s: Store, op: Operation): Store {
    match op
    case AddOp(name, v) => if Find(s.members, name).Some? then s else Appended(s, Member(name, v))
    case SetOp(name, v) =>
      if Find(s.members, name).Some? then s.(members := Set(s.members, name, v)) else Appended(s, Member(name, v))
    case RemoveOp(name) => if Find(s.members, name).Some? then s.(members := Remove(s.members, name)) else s
    case ClearOp => s.(members := [])
    case ResizeOp(capacity) => if capacity == 0 then s else s.(capacity := capacity)
  }

  /** json_object_resize copies all members, so its callers ask for room for them. */
  predicate Legal(s: Store, op: Operation) {
    op.ResizeOp? && op.capacity > 0 ==> |s.members| <= op.capacity
  }

  ghost function ApplyToMap(m: map<string, Json>, op: Operation): map<string, Json> {
    match op
    case AddOp(name, v) => if name in m then m else m[name := v]
    case SetOp(name, v) => m[name := v]
    case RemoveOp(name) => m - {name}
    case ClearOp => map[]
    case ResizeOp(_) => m
  }

  function Run(s: Store, ops: seq<Operation>): Store
    decreases |ops|
  {
    if ops == [] then s else Run(Apply(s, ops[0]), ops[1..])
  }

  predicate LegalRun(s: Store, ops: seq<Operation>)
    decreases |ops|
  {
    ops != [] ==> Legal(s, ops[0]) && LegalRun(Apply(s, ops[0]), ops[1..])
  }

  ghost function RunOnMap(m: map<string, Json>, ops: seq<Operation>): map<string, Json>
    decreases |ops|
  {
    if ops == [] then m else RunOnMap(ApplyToMap(m, ops[0]), ops[1..])
  }

  /** Look-up by name in the members and in the map agree, names are distinct, and the sizes match. */
  ghost predicate Represents(ms: seq<Member>, m: map<string, Json>) {
    && DistinctNames(ms) && |ms| == |m|
    && forall name: string :: Find(ms, name) == if name in m then Some(m[name]) else None
  }

  lemma UpdatedSize(m: map<string, Json>, name: string, v: Json)
    ensures |m[name := v]| == if name in m then |m| else |m| + 1
  {
    assert m[name := v].Keys == m.Keys + {name};
  }

  lemma DistinctAfterAppend(ms: seq<Member>, m: Member)
    requires DistinctNames(ms) && Find(ms, m.name).None?
    ensures DistinctNames(ms + [m])
  {
  }

  lemma DistinctAfterUpdate(ms: seq<Member>, i: nat, m: Member)
    requires DistinctNames(ms) && i < |ms| && ms[i].name == m.name
    ensures DistinctNames(ms[i := m])
  {
  }

  lemma SetRefinesMap(ms: seq<Member>, m: map<string, Json>, name: string, v: Json)
    requires Represents(ms, m)
    ensures Represents(Set(ms, name, v), m[name := v])
  {
    hide Find, Set, IndexOf, DistinctNames;
    SetIs(ms, name, v);
    IndexFinds(ms, name);
    UpdatedSize(m, name, v);
    var i, ms' := IndexOf(ms, name), Set(ms, name, v);
    if i < |ms| {
      DistinctAfterUpdate(ms, i, Member(name, v));
    } else {
      DistinctAfterAppend(ms, Member(name, v));
    }
    forall k: string
      ensures Find(ms', k) == if k in m[name := v] then Some(m[name := v][k]) else None
    {
      FindAfterSet(ms, name, v, k);
    }
  }

  /** A new name is appended by json_object_add exactly as json_object_set_value would. */
  lemma AppendRefinesMap(ms: seq<Member>, m: map<string, Json>, name: string, v: Json)
    requires Represents(ms, m) && name !in m
    ensures Represents(ms + [Member(name, v)], m[name := v])
  {
    hide Find, Set, IndexOf;
    SetRefinesMap(ms, m, name, v);
    SetIs(ms, name, v);
    IndexFinds(ms, name);
  }

  lemma RemoveRefinesMap(ms: seq<Member>, m: map<string, Json>, name: string)
    requires Represents(ms, m) && name in m
    ensures DistinctNames(ms) && Find(ms, name).Some?
    ensures Represents(Remove(ms, name), m - {name})
  {
    hide Find, Remove;
    assert Find(ms, name).Some?;
    FindAfterRemove(ms, name, name);
    forall k: string { FindAfterRemove(ms, name, k); }
    assert m.Keys == (m - {name}).Keys + {name};
  }

  /** The store holds what the map does, and has room for it. */
  ghost predicate Holds(s: Store, m: map<string, Json>) {
    Represents(s.members, m) && |s.members| <= s.capacity
  }

  lemma RepresentsLookup(ms: seq<Member>, m: map<string, Json>, name: string)
    requires Represents(ms, m)
    ensures |ms| == |m| && (Find(ms, name).Some? <==> name in m)
  {
  }

  lemma ApplyRefinesMap(s: Store, m: map<string, Json>, op: Operation)
    requires Holds(s, m) && Legal(s, op)
    ensures Holds(Apply(s, op), ApplyToMap(m, op))
  {
    hide Find, Remove, Set, Represents;
    var ms := s.members;
    match op
    case AddOp(name, v) =>
      RepresentsLookup(ms, m, name);
      if name !in m {
        AppendRefinesMap(ms, m, name, v);
      }
    case SetOp(name, v) =>
      RepresentsLookup(ms, m, name);
      if name !in m {
        AppendRefinesMap(ms, m, name, v);
      } else {
        SetRefinesMap(ms, m, name, v);
        SetKeepsCount(ms, name, v);
      }
    case RemoveOp(name) =>
      RepresentsLookup(ms, m, name);
      if name in m {
        RemoveRefinesMap(ms, m, name);
        RemoveIs(ms, name);
      } else {
        assert m - {name} == m;
      }
    case ClearOp => NothingFound();
    case ResizeOp(_) =>
  }

  lemma SetKeepsCount(ms: seq<Member>, name: string, v: Json)
    requires Find(ms, name).Some?
    ensures |Set(ms, name, v)| == |ms|
  {
    hide Find, Set;
    SetIs(ms, name, v);
    IndexFinds(ms, name);
  }

  lemma NothingFound()
    ensures Represents([], map[])
  {
  }

  /**
   Every run of add, set, remove, clear and resize behaves as the same run on a map from names to
   values, and the members never outgrow the capacity.
   */
  lemma {:induction false} RunRefinesMap(s: Store, m: map<string, Json>, ops: seq<Operation>)
    requires Holds(s, m) && LegalRun(s, ops)
    ensures Holds(Run(s, ops), RunOnMap(m, ops))
    decreases |ops|
  {
    if ops != [] {
      hide Apply, ApplyToMap, Holds;
      ApplyRefinesMap(s, m, ops[0]);
      RunRefinesMap(Apply(s, ops[0]), ApplyToMap(m, ops[0]), ops[1..]);
    }
  }

  // ----- dotted names -----

  /** `strchr(name, '.')`. */
  function FirstDot(name: string): (d: Option<nat>)
    ensures d.Some? ==> d.value < |name| && name[d.value] == '.'
    ensures d.Some? ==> forall k :: 0 <= k < d.value ==> name[k] != '.'
    ensures d.None? ==> forall k :: 0 <= k < |name| ==> name[k] != '.'
  {
    if name == "" then None
    else if name[0] == '.' then Some(0)
    else
      match FirstDot(name[1..])
      case None => None
      case Some(d) => Some(d + 1)
  }

  function Components(name: string): (cs: seq<string>)
    ensures |cs| >= 1
    decreases |name|
  {
    match FirstDot(name)
    case None => [name]
    case Some(d) => [name[..d]] + Components(name[d + 1..])
  }

  /** json_object_dotget_value. Once a step finds no object, every further step finds nothing. */
  function DotGet(ms: seq<Member>, name: string): Option<Json>
    decreases |name|
  {
    match FirstDot(name)
    case None => Find(ms, name)
    case Some(d) =>
      match Find(ms, name[..d])
      case Some(Object(inner)) => DotGet(inner, name[d + 1..])
      case _ => None
  }

  /**
   json_object_dotset_value of a value without a parent: whether it succeeds, and the members it
   leaves. A missing object on the way is added empty before the descent; a value of another type
   there makes json_object_add fail.
   */
  function DotSet(ms: seq<Member>, name: string, v: Json): (bool, seq<Member>)
    decreases |name|
  {
    match FirstDot(name)
    case None => (true, Set(ms, name, v))
    case Some(d) =>
      var key, rest := name[..d], name[d + 1..];
      match Find(ms, key)
      case Some(Object(inner)) =>
        var (ok, updated) := DotSet(inner, rest, v);
        (ok, Set(ms, key, Object(updated)))
      case Some(_) => (false, ms)
      case None =>
        var added := ms + [Member(key, Object([]))];
        var (ok, updated) := DotSet([], rest, v);
        (ok, Set(added, key, Object(updated)))
  }

  /**
   What json_object_dotset_value leaves when the last step refuses the value, because it already
   has a parent: the objects created on the way stay.
   */
  function DotCreate(ms: seq<Member>, name: string): seq<Member>
    decreases |name|
  {
    match FirstDot(name)
    case None => ms
    case Some(d) =>
      var key, rest := name[..d], name[d + 1..];
      match Find(ms, key)
      case Some(Object(inner)) => Set(ms, key, Object(DotCreate(inner, rest)))
      case Some(_) => ms
      case None => Set(ms + [Member(key, Object([]))], key, Object(DotCreate([], rest)))
  }

  /** json_object_dotremove: whether it succeeds, and the members it leaves. */
  function DotRemove(ms: seq<Member>, name: string): (bool, seq<Member>)
    decreases |name|
  {
    match FirstDot(name)
    case None => if Find(ms, name).Some? then (true, Remove(ms, name)) else (false, ms)
    case Some(d) =>
      var key, rest := name[..d], name[d + 1..];
      match Find(ms, key)
      case Some(Object(inner)) =>
        var (ok, updated) := DotRemove(inner, rest);
        (ok, Set(ms, key, Object(updated)))
      case _ => (false, ms)
  }

  /** One step of the descent, by index. */
  lemma DotSetStep(ms: seq<Member>, name: string, v: Json)
    requires FirstDot(name).Some?
    ensures var d := FirstDot(name).value;
            var key, rest := name[..d], name[d + 1..];
            var i := IndexOf(ms, key);
            var added := if i == |ms| then ms + [Member(key, Object([]))] else ms;
            if added[i].value.Object? then
              var inner := added[i].value.members;
              var (ok, updated) := DotSet(inner, rest, v);
              && DotSet(ms, name, v) == (ok, added[i := Member(key, Object(updated))])
              && DotCreate(ms, name) == added[i := Member(key, Object(DotCreate(inner, rest)))]
            else DotSet(ms, name, v) == (false, ms) && DotCreate(ms, name) == ms
  {
    var d := FirstDot(name).value;
    var key, rest := name[..d], name[d + 1..];
    var i := IndexOf(ms, key);
    IndexFinds(ms, key);
    hide FirstDot, Find, IndexOf, Set, DotSet, DotCreate;
    if i == |ms| {
      DotSetMissing(ms, name, v);
      UpdateLast(ms, Member(key, Object([])), Member(key, Object(DotSet([], rest, v).1)));
      UpdateLast(ms, Member(key, Object([])), Member(key, Object(DotCreate([], rest))));
    } else if ms[i].value.Object? {
      DotSetInner(ms, name, v);
    } else {
      DotSetBlocked(ms, name, v);
    }
  }

  lemma UpdateLast(ms: seq<Member>, m: Member, m': Member)
    ensures (ms + [m])[|ms| := m'] == ms + [m']
  {
  }

  lemma DotSetMissing(ms: seq<Member>, name: string, v: Json)
    requires FirstDot(name).Some? && Find(ms, name[..FirstDot(name).value]).None?
    ensures var d := FirstDot(name).value;
            var key, rest := name[..d], name[d + 1..];
            && DotSet(ms, name, v) == (DotSet([], rest, v).0, ms + [Member(key, Object(DotSet([], rest, v).1))])
            && DotCreate(ms, name) == ms + [Member(key, Object(DotCreate([], rest)))]
  {
    hide FirstDot, Find, IndexOf, Set;
    var d := FirstDot(name).value;
    var key, rest := name[..d], name[d + 1..];
    IndexFinds(ms, key);
    SetAfterAppend(ms, key, Object([]), Object(DotSet([], rest, v).1));
    SetAfterAppend(ms, key, Object([]), Object(DotCreate([], rest)));
    SetIs(ms, key, Object(DotSet([], rest, v).1));
    SetIs(ms, key, Object(DotCreate([], rest)));
  }

  lemma DotSetInner(ms: seq<Member>, name: string, v: Json)
    requires FirstDot(name).Some?
    requires var found := Find(ms, name[..FirstDot(name).value]); found.Some? && found.value.Object?
    ensures var d := FirstDot(name).value;
            var key, rest := name[..d], name[d + 1..];
            var i, inner := IndexOf(ms, key), Find(ms, key).value.members;
            && i < |ms|
            && DotSet(ms, name, v) == (DotSet(inner, rest, v).0, ms[i := Member(key, Object(DotSet(inner, rest, v).1))])
            && DotCreate(ms, name) == ms[i := Member(key, Object(DotCreate(inner, rest)))]
  {
    hide FirstDot, Find, IndexOf, Set;
    var d := FirstDot(name).value;
    var key, rest := name[..d], name[d + 1..];
    var inner := Find(ms, key).value.members;
    IndexFinds(ms, key);
    SetIs(ms, key, Object(DotSet(inner, rest, v).1));
    SetIs(ms, key, Object(DotCreate(inner, rest)));
  }

  lemma DotSetBlocked(ms: seq<Member>, name: string, v: Json)
    requires FirstDot(name).Some?
    requires var found := Find(ms, name[..FirstDot(name).value]); found.Some? && !found.value.Object?
    ensures DotSet(ms, name, v) == (false, ms) && DotCreate(ms, name) == ms
  {
  }

  /** One step of the removal, by index. */
  lemma DotRemoveStep(ms: seq<Member>, name: string)
    requires FirstDot(name).Some?
    ensures var d := FirstDot(name).value;
            var key, rest := name[..d], name[d + 1..];
            var i := IndexOf(ms, key);
            if i < |ms| && ms[i].value.Object? then
              var (ok, updated) := DotRemove(ms[i].value.members, rest);
              DotRemove(ms, name) == (ok, ms[i := Member(key, Object(updated))])
            else DotRemove(ms, name) == (false, ms)
  {
    hide FirstDot, Find, IndexOf, Set, Remove;
    var d := FirstDot(name).value;
    var key, rest := name[..d], name[d + 1..];
    var i := IndexOf(ms, key);
    IndexFinds(ms, key);
    if i < |ms| && ms[i].value.Object? {
      var inner := ms[i].value.members;
      SetIs(ms, key, Object(DotRemove(inner, rest).1));
      DotRemoveInside(ms, name, d, inner);
    }
  }

  lemma DotRemoveInside(ms: seq<Member>, name: string, d: nat, inner: seq<Member>)
    requires FirstDot(name) == Some(d) && Find(ms, name[..d]) == Some(Object(inner))
    ensures var (ok, updated) := DotRemove(inner, name[d + 1..]);
            DotRemove(ms, name) == (ok, Set(ms, name[..d], Object(updated)))
  {
    hide FirstDot, Find, Set, Remove;
  }

  lemma DotRemovePlain(ms: seq<Member>, name: string)
    requires FirstDot(name).None?
    ensures DotRemove(ms, name) == if Find(ms, name).Some? then (true, Remove(ms, name)) else (false, ms)
    ensures DotGet(ms, name) == Find(ms, name)
  {
  }

  lemma DotGetStep(ms: seq<Member>, name: string)
    requires FirstDot(name).Some?
    ensures var d := FirstDot(name).value;
            var i := IndexOf(ms, name[..d]);
            DotGet(ms, name) ==
            if i < |ms| && ms[i].value.Object? then DotGet(ms[i].value.members, name[d + 1..]) else None
  {
    hide FirstDot, Find, IndexOf;
    IndexFinds(ms, name[..FirstDot(name).value]);
  }

  lemma {:induction false} IndexFinds(ms: seq<Member>, name: string)
    ensures var i := IndexOf(ms, name); Find(ms, name) == if i < |ms| then Some(ms[i].value) else None
  {
    if ms != [] && ms[0].name != name {
      IndexFinds(ms[1..], name);
    }
  }

  // ----- what a path means -----

  /** The components of a path with dots between them. */
  function Joined(cs: seq<string>): string
    requires cs != []
  {
    if |cs| == 1 then cs[0] else cs[0] + "." + Joined(cs[1..])
  }

  /** A walk from member to member, each but the last holding an object. */
  ghost predicate Leads(ms: seq<Member>, cs: seq<string>, v: Json)
    requires cs != []
    decreases |cs|
  {
    exists i :: 0 <= i < |ms| && ms[i].name == cs[0] && LeadsFrom(ms[i].value, cs, v)
  }

  ghost predicate LeadsFrom(at: Json, cs: seq<string>, v: Json)
    requires cs != []
    decreases |cs|, 0
  {
    if |cs| == 1 then at == v else at.Object? && Leads(at.members, cs[1..], v)
  }

  lemma {:induction false} FirstDotOf(name: string, rest: string)
    requires '.' !in name
    ensures FirstDot(name).None?
    ensures FirstDot(name + "." + rest) == Some(|name|)
  {
    var t := name + "." + rest;
    if name != "" {
      assert t[1..] == name[1..] + "." + rest;
      FirstDotOf(name[1..], rest);
    } else {
      assert t[0] == '.';
    }
  }

  /** json_object_dotget_value finds a value exactly where the components of the path lead to it. */
  lemma {:induction false} DotGetExactlyWhen(ms: seq<Member>, cs: seq<string>, v: Json)
    requires cs != [] && (forall k :: 0 <= k < |cs| ==> '.' !in cs[k]) && WellFormed(Object(ms))
    ensures DotGet(ms, Joined(cs)) == Some(v) <==> Leads(ms, cs, v)
    decreases |cs|
  {
    hide FirstDot, Find;
    var name := Joined(cs);
    FirstDotOf(cs[0], if |cs| == 1 then "" else Joined(cs[1..]));
    if |cs| > 1 {
      assert name[..|cs[0]|] == cs[0] && name[|cs[0]| + 1..] == Joined(cs[1..]);
    }
    forall i | 0 <= i < |ms| && ms[i].name == cs[0]
      ensures DotGet(ms, name) == Some(v) <==> LeadsFrom(ms[i].value, cs, v)
    {
      FindAt(ms, i);
      if |cs| > 1 && ms[i].value.Object? {
        DotGetExactlyWhen(ms[i].value.members, cs[1..], v);
      }
    }
  }

  // ----- json_object_dotset_value -----

  /** Once a missing object has been created no later step can fail. */
  lemma {:induction false} DotSetInEmptySucceeds(name: string, v: Json)
    ensures DotSet([], name, v).0
    decreases |name|
  {
    match FirstDot(name)
    case None =>
    case Some(d) => DotSetInEmptySucceeds(name[d + 1..], v);
  }

  lemma {:induction false} DotSetFailsWithoutEffect(ms: seq<Member>, name: string, v: Json)
    requires !DotSet(ms, name, v).0
    ensures DotSet(ms, name, v).1 == ms
    decreases |name|
  {
    hide Find, Set, FirstDot;
    var d := FirstDot(name).value;
    var key, rest := name[..d], name[d + 1..];
    match Find(ms, key)
    case Some(Object(inner)) =>
      DotSetFailsWithoutEffect(inner, rest, v);
      SetToSame(ms, key);
    case Some(_) =>
    case None =>
      DotSetInEmptySucceeds(rest, v);
  }

  /** A path that ends at a dot of `name`. */
  ghost predicate IsPrefixPath(name: string, k: nat) {
    k < |name| && name[k] == '.'
  }

  /** A value that is not an object lies on the way. */
  ghost predicate Blocked(ms: seq<Member>, name: string) {
    exists k: nat :: IsPrefixPath(name, k) && DotGet(ms, name[..k]).Some? && !DotGet(ms, name[..k]).value.Object?
  }

  /** It fails exactly when some proper prefix of the path already holds a value other than an object. */
  lemma {:induction false} DotSetSucceedsUnlessBlocked(ms: seq<Member>, name: string, v: Json)
    ensures DotSet(ms, name, v).0 <==> !Blocked(ms, name)
    decreases |name|
  {
    hide FirstDot, Find, Set;
    match FirstDot(name)
    case None =>
    case Some(d) =>
      var key, rest := name[..d], name[d + 1..];
      assert DotGet(ms, key) == Find(ms, key);
      match Find(ms, key)
      case Some(Object(inner)) =>
        DotSetSucceedsUnlessBlocked(inner, rest, v);
        BlockedInside(ms, name, d, inner);
      case Some(_) =>
        assert IsPrefixPath(name, d);
      case None =>
        DotSetInEmptySucceeds(rest, v);
        forall k: nat | IsPrefixPath(name, k)
          ensures DotGet(ms, name[..k]).None?
        {
          PrefixSplits(name, d, k);
        }
  }

  /** A path up to a later dot has the same first dot. */
  lemma PrefixSplits(name: string, d: nat, k: nat)
    requires FirstDot(name) == Some(d) && IsPrefixPath(name, k)
    ensures d <= k
    ensures d == k ==> FirstDot(name[..k]).None?
    ensures d < k ==> FirstDot(name[..k]) == Some(d) && name[..k][..d] == name[..d]
                      && name[..k][d + 1..] == name[d + 1..][..k - d - 1] && IsPrefixPath(name[d + 1..], k - d - 1)
  {
    if d < k {
      assert name[..k][d] == '.';
    }
  }

  /** A path up to a later dot leads where its rest leads inside the first object. */
  lemma PrefixInside(ms: seq<Member>, name: string, d: nat, inner: seq<Member>, k: nat)
    requires FirstDot(name) == Some(d) && Find(ms, name[..d]) == Some(Object(inner)) && IsPrefixPath(name, k)
    ensures d <= k
    ensures k == d ==> DotGet(ms, name[..k]) == Some(Object(inner))
    ensures k > d ==> IsPrefixPath(name[d + 1..], k - d - 1)
                      && DotGet(ms, name[..k]) == DotGet(inner, name[d + 1..][..k - d - 1])
  {
    hide Find, FirstDot;
    PrefixSplits(name, d, k);
  }

  lemma BlockedInside(ms: seq<Member>, name: string, d: nat, inner: seq<Member>)
    requires FirstDot(name) == Some(d) && Find(ms, name[..d]) == Some(Object(inner))
    ensures Blocked(ms, name) <==> Blocked(inner, name[d + 1..])
  {
    hide Find, FirstDot, DotGet;
    var rest := name[d + 1..];
    if Blocked(ms, name) {
      var k: nat :| IsPrefixPath(name, k) && DotGet(ms, name[..k]).Some? && !DotGet(ms, name[..k]).value.Object?;
      PrefixInside(ms, name, d, inner, k);
      assert IsPrefixPath(rest, k - d - 1);
    }
    if Blocked(inner, rest) {
      var j: nat :| IsPrefixPath(rest, j) && DotGet(inner, rest[..j]).Some? && !DotGet(inner, rest[..j]).value.Object?;
      assert IsPrefixPath(name, j + d + 1);
      PrefixInside(ms, name, d, inner, j + d + 1);
    }
  }

  lemma {:induction false} DotSetThenGet(ms: seq<Member>, name: string, v: Json)
    requires DotSet(ms, name, v).0
    ensures DotGet(DotSet(ms, name, v).1, name) == Some(v)
    decreases |name|
  {
    hide DotSet, DotGet, FirstDot, Find, Set;
    if FirstDot(name).None? {
      DotSetPlain(ms, name, v);
      DotRemovePlain(Set(ms, name, v), name);
      FindAfterSet(ms, name, v, name);
    } else {
      var d := FirstDot(name).value;
      var inner := Inner(ms, name[..d]);
      DotSetDescends(ms, name, v);
      var updated := DotSet(inner, name[d + 1..], v).1;
      DotSetThenGet(inner, name[d + 1..], v);
      FindAfterSet(ms, name[..d], Object(updated), name[..d]);
      DotGetInside(Set(ms, name[..d], Object(updated)), name);
    }
  }

  /** The members of the object under a name, or of the empty one that gets created there. */
  function Inner(ms: seq<Member>, key: string): seq<Member> {
    match Find(ms, key)
    case Some(Object(inner)) => inner
    case _ => []
  }

  /** A success at a dotted name is a success on the inner object, put back under the key. */
  lemma DotSetDescends(ms: seq<Member>, name: string, v: Json)
    requires FirstDot(name).Some? && DotSet(ms, name, v).0
    ensures var d := FirstDot(name).value;
            var inner := DotSet(Inner(ms, name[..d]), name[d + 1..], v);
            inner.0 && DotSet(ms, name, v).1 == Set(ms, name[..d], Object(inner.1))
  {
    hide FirstDot, Find, Set;
    var d := FirstDot(name).value;
    var key := name[..d];
    if Find(ms, key).None? {
      SetAfterAppend(ms, key, Object([]), Object(DotSet([], name[d + 1..], v).1));
    }
  }

  /** Neither list of components is a prefix of the other. */
  ghost predicate Diverge(name: string, other: string) {
    !(Components(name) <= Components(other)) && !(Components(other) <= Components(name))
  }

  lemma ComponentsUnfold(name: string)
    requires FirstDot(name).Some?
    ensures var d := FirstDot(name).value; Components(name) == [name[..d]] + Components(name[d + 1..])
  {
    hide FirstDot;
  }

  lemma DivergeInside(name: string, other: string)
    requires Diverge(name, other) && FirstDot(name).Some?
    requires FirstDot(other).Some? && name[..FirstDot(name).value] == other[..FirstDot(other).value]
    ensures Diverge(name[FirstDot(name).value + 1..], other[FirstDot(other).value + 1..])
  {
    hide FirstDot, Components;
    ComponentsUnfold(name);
    ComponentsUnfold(other);
    var d, e := FirstDot(name).value, FirstDot(other).value;
    var p, q := Components(name[d + 1..]), Components(other[e + 1..]);
    PrefixUnderHead([name[..d]], p, q);
    PrefixUnderHead([name[..d]], q, p);
  }

  lemma PrefixUnderHead(head: seq<string>, p: seq<string>, q: seq<string>)
    ensures p <= q ==> head + p <= head + q
  {
    if p <= q {
      assert q == p + q[|p|..];
      assert head + q == (head + p) + q[|p|..];
    }
  }

  /** What a path finds when its first component is `key`: only the value under that key matters. */
  lemma DotGetThroughKey(ms: seq<Member>, ms': seq<Member>, other: string)
    requires var key := Components(other)[0]; Find(ms, key) == Find(ms', key)
    ensures DotGet(ms, other) == DotGet(ms', other)
  {
  }

  lemma DotGetInside(ms: seq<Member>, other: string)
    requires FirstDot(other).Some?
    ensures var e := FirstDot(other).value;
            DotGet(ms, other) == DotGet(Inner(ms, other[..e]), other[e + 1..])
  {
    NothingInEmpty(other[FirstDot(other).value + 1..]);
  }

  lemma OneComponent(name: string, other: string)
    requires Diverge(name, other) && Components(name)[0] == Components(other)[0]
    ensures FirstDot(name).Some? && FirstDot(other).Some?
    ensures name[..FirstDot(name).value] == other[..FirstDot(other).value] == Components(name)[0]
  {
  }

  /** Every path that is neither a component prefix nor an extension of the one set is unchanged. */
  lemma {:induction false} DotSetLeavesOthers(ms: seq<Member>, name: string, v: Json, other: string)
    requires Diverge(name, other)
    ensures DotGet(DotSet(ms, name, v).1, other) == DotGet(ms, other)
    decreases |name|
  {
    hide FirstDot, Components, DotSet, DotGet, Find, Set, Diverge;
    var key, first := Components(name)[0], Components(other)[0];
    if !DotSet(ms, name, v).0 {
      DotSetFailsWithoutEffect(ms, name, v);
    } else if key != first {
      DotSetUnderFirst(ms, name, v, first);
      DotGetThroughKey(ms, DotSet(ms, name, v).1, other);
    } else {
      OneComponent(name, other);
      var d, e := FirstDot(name).value, FirstDot(other).value;
      var rest := name[d + 1..];
      var inner := Inner(ms, key);
      var updated := DotSet(inner, rest, v).1;
      DotSetDescends(ms, name, v);
      FindAfterSet(ms, key, Object(updated), key);
      DivergeInside(name, other);
      DotSetLeavesOthers(inner, rest, v, other[e + 1..]);
      DotGetInside(ms, other);
      DotGetInside(DotSet(ms, name, v).1, other);
    }
  }

  /** A success touches no value but the one under the path's first component. */
  lemma DotSetUnderFirst(ms: seq<Member>, name: string, v: Json, k: string)
    requires DotSet(ms, name, v).0 && k != Components(name)[0]
    ensures Find(DotSet(ms, name, v).1, k) == Find(ms, k)
  {
    hide Find, Set;
    match FirstDot(name)
    case None => FindAfterSet(ms, name, v, k);
    case Some(d) =>
      DotSetDescends(ms, name, v);
      FindAfterSet(ms, name[..d], Object(DotSet(Inner(ms, name[..d]), name[d + 1..], v).1), k);
  }

  lemma NothingInEmpty(name: string)
    ensures DotGet([], name).None?
  {
  }

  // ----- a dotted set of a value that has a parent -----

  /** Every proper prefix of the path leads to some value. */
  ghost predicate Reached(ms: seq<Member>, name: string) {
    forall k: nat :: IsPrefixPath(name, k) ==> DotGet(ms, name[..k]).Some?
  }

  lemma ReachedInside(ms: seq<Member>, name: string, d: nat, inner: seq<Member>)
    requires FirstDot(name) == Some(d) && Find(ms, name[..d]) == Some(Object(inner))
    ensures Reached(ms, name) <==> Reached(inner, name[d + 1..])
  {
    hide Find, FirstDot, DotGet;
    var rest := name[d + 1..];
    if Reached(inner, rest) {
      forall k: nat | IsPrefixPath(name, k)
        ensures DotGet(ms, name[..k]).Some?
      {
        PrefixInside(ms, name, d, inner, k);
      }
    }
    if Reached(ms, name) {
      forall j: nat | IsPrefixPath(rest, j)
        ensures DotGet(inner, rest[..j]).Some?
      {
        assert IsPrefixPath(name, j + d + 1);
        PrefixInside(ms, name, d, inner, j + d + 1);
      }
    }
  }

  /** Unless the first step is blocked, the descent goes on in the inner object, put back under the key. */
  lemma DotCreateDescends(ms: seq<Member>, name: string)
    requires FirstDot(name).Some?
    ensures var d := FirstDot(name).value;
            var key := name[..d];
            if Find(ms, key).Some? && !Find(ms, key).value.Object? then DotCreate(ms, name) == ms
            else DotCreate(ms, name) == Set(ms, key, Object(DotCreate(Inner(ms, key), name[d + 1..])))
  {
    hide FirstDot, Find, Set;
    var d := FirstDot(name).value;
    var key := name[..d];
    if Find(ms, key).None? {
      SetAfterAppend(ms, key, Object([]), Object(DotCreate([], name[d + 1..])));
    }
  }

  /**
   A dotted set of a value that already has a parent fails, and so it leaves the object as it was
   exactly when it is blocked on the way or finds every object on the way in place.
   */
  lemma {:induction false} DotCreateNothingExactlyWhen(ms: seq<Member>, name: string)
    ensures DotCreate(ms, name) == ms <==> Blocked(ms, name) || Reached(ms, name)
    decreases |name|
  {
    hide Find, Set, DotCreate, Blocked, Reached;
    if FirstDot(name).None? {
      DotSetPlain(ms, name, Null);
      NoPrefixPath(ms, name);
    } else {
      var d := FirstDot(name).value;
      var key, rest := name[..d], name[d + 1..];
      var inner := Inner(ms, key);
      DotCreateDescends(ms, name);
      FindAfterSet(ms, key, Object(DotCreate(inner, rest)), key);
      FirstPrefix(ms, name);
      if Find(ms, key).Some? && Find(ms, key).value.Object? {
        DotCreateNothingExactlyWhen(inner, rest);
        BlockedInside(ms, name, d, inner);
        ReachedInside(ms, name, d, inner);
        SetToSame(ms, key);
      }
    }
  }

  lemma NoPrefixPath(ms: seq<Member>, name: string)
    requires FirstDot(name).None?
    ensures Reached(ms, name)
  {
  }

  /** What the first component says of the path. */
  lemma FirstPrefix(ms: seq<Member>, name: string)
    requires FirstDot(name).Some?
    ensures var found := Find(ms, name[..FirstDot(name).value]);
            && (found.Some? && !found.value.Object? ==> Blocked(ms, name))
            && (found.None? ==> !Blocked(ms, name) && !Reached(ms, name))
  {
    var d := FirstDot(name).value;
    assert IsPrefixPath(name, d);
    assert DotGet(ms, name[..d]) == Find(ms, name[..d]);
    if Find(ms, name[..d]).None? {
      forall k: nat | IsPrefixPath(name, k)
        ensures DotGet(ms, name[..k]).None?
      {
        PrefixSplits(name, d, k);
      }
    }
  }

  /** In any case it changes no path but proper prefixes of its own. */
  lemma {:induction false} DotCreateLeavesOthers(ms: seq<Member>, name: string, other: string)
    requires !(Components(other) < Components(name))
    ensures DotGet(DotCreate(ms, name), other) == DotGet(ms, other)
    decreases |name|
  {
    hide FirstDot, Components, DotCreate, DotGet, Find, Set;
    if FirstDot(name).None? {
      DotSetPlain(ms, name, Null);
    } else {
      var d := FirstDot(name).value;
      var key, rest := name[..d], name[d + 1..];
      var inner := Inner(ms, key);
      var created := DotCreate(inner, rest);
      DotCreateDescends(ms, name);
      FindAfterSet(ms, key, Object(created), Components(other)[0]);
      if Components(other)[0] != key {
        DotGetThroughKey(ms, Set(ms, key, Object(created)), other);
      } else {
        UnderSameKey(name, other);
        var e := FirstDot(other).value;
        DotCreateLeavesOthers(inner, rest, other[e + 1..]);
        DotGetInside(ms, other);
        DotGetInside(Set(ms, key, Object(created)), other);
      }
    }
  }

  lemma UnderSameKey(name: string, other: string)
    requires FirstDot(name).Some? && Components(other)[0] == name[..FirstDot(name).value]
    requires !(Components(other) < Components(name))
    ensures FirstDot(other).Some? && other[..FirstDot(other).value] == name[..FirstDot(name).value]
    ensures !(Components(other[FirstDot(other).value + 1..]) < Components(name[FirstDot(name).value + 1..]))
  {
    hide FirstDot;
    var d := FirstDot(name).value;
    ComponentsUnfold(name);
    assert [name[..d]] < Components(name);
    var e := FirstDot(other).value;
    ComponentsUnfold(other);
    PrefixUnderHead([name[..d]], Components(other[e + 1..]), Components(name[d + 1..]));
  }

  /** Longer paths lead on into the value that was set. */
  lemma {:induction false} DotSetThenGetInside(ms: seq<Member>, name: string, v: Json, more: string)
    requires DotSet(ms, name, v).0
    ensures DotGet(DotSet(ms, name, v).1, name + "." + more)
         == if v.Object? then DotGet(v.members, more) else None
    decreases |name|
  {
    hide Find, Set, DotSet;
    var longer := name + "." + more;
    LongerPath(name, more);
    match FirstDot(name)
    case None =>
      DotSetPlain(ms, name, v);
      FindAfterSet(ms, name, v, name);
      NothingInEmpty(more);
      DotGetInside(Set(ms, name, v), longer);
    case Some(d) =>
      var key, rest := name[..d], name[d + 1..];
      var inner := Inner(ms, key);
      DotSetDescends(ms, name, v);
      DotSetThenGetInside(inner, rest, v, more);
      FindAfterSet(ms, key, Object(DotSet(inner, rest, v).1), key);
      DotGetInside(DotSet(ms, name, v).1, longer);
  }

  lemma DotSetPlain(ms: seq<Member>, name: string, v: Json)
    requires FirstDot(name).None?
    ensures DotSet(ms, name, v) == (true, Set(ms, name, v)) && DotCreate(ms, name) == ms
  {
  }

  lemma LongerPath(name: string, more: string)
    ensures var longer := name + "." + more;
            match FirstDot(name)
            case None => FirstDot(longer) == Some(|name|) && longer[..|name|] == name && longer[|name| + 1..] == more
            case Some(d) => FirstDot(longer) == Some(d) && longer[..d] == name[..d]
                            && longer[d + 1..] == name[d + 1..] + "." + more
  {
    hide FirstDot;
    var dot := ".";
    var longer := name + dot + more;
    SlicesOfConcat(name, dot, more, if FirstDot(name).Some? then FirstDot(name).value else 0);
    FirstDotIs(longer, if FirstDot(name).Some? then FirstDot(name).value else |name|);
  }

  lemma SlicesOfConcat(a: string, b: string, c: string, d: nat)
    requires |b| == 1
    ensures var s := a + b + c;
            && s[..|a|] == a && s[|a| + 1..] == c && s[|a|] == b[0]
            && (forall k :: 0 <= k < |a| ==> s[k] == a[k])
            && (d < |a| ==> s[..d] == a[..d] && s[d + 1..] == a[d + 1..] + b + c)
  {
  }

  lemma FirstDotIs(name: string, d: nat)
    requires d < |name| && name[d] == '.' && forall k :: 0 <= k < d ==> name[k] != '.'
    ensures FirstDot(name) == Some(d)
  {
    assert FirstDot(name).Some?;
  }

  lemma {:induction false} DotSetKeepsWellFormed(ms: seq<Member>, name: string, v: Json)
    requires WellFormed(Object(ms)) && NulFree(name) && WellFormed(v)
    ensures WellFormed(Object(DotSet(ms, name, v).1))
    decreases |name|
  {
    hide DotSet, Set, WellFormed, Find, FirstDot;
    match FirstDot(name)
    case None =>
      DotSetPlain(ms, name, v);
      SetKeepsWellFormed(ms, name, v);
    case Some(d) =>
      if !DotSet(ms, name, v).0 {
        DotSetFailsWithoutEffect(ms, name, v);
      } else {
        var key, rest := name[..d], name[d + 1..];
        var inner := Inner(ms, key);
        InnerWellFormed(ms, key);
        DotSetDescends(ms, name, v);
        DotSetKeepsWellFormed(inner, rest, v);
        SetKeepsWellFormed(ms, key, Object(DotSet(inner, rest, v).1));
      }
  }

  lemma InnerWellFormed(ms: seq<Member>, key: string)
    requires WellFormed(Object(ms))
    ensures WellFormed(Object(Inner(ms, key)))
  {
  }

  // ----- json_object_dotremove -----

  /** It succeeds exactly on paths that lead to a value, and otherwise changes nothing. */
  lemma {:induction false} DotRemoveSucceedsWhereFound(ms: seq<Member>, name: string)
    ensures DotRemove(ms, name).0 <==> DotGet(ms, name).Some?
    ensures !DotRemove(ms, name).0 ==> DotRemove(ms, name).1 == ms
    decreases |name|
  {
    hide *;
    if FirstDot(name).None? {
      DotRemovePlain(ms, name);
    } else {
      var d := FirstDot(name).value;
      var i := IndexOf(ms, name[..d]);
      DotRemoveStep(ms, name);
      DotGetStep(ms, name);
      if i < |ms| && ms[i].value.Object? {
        DotRemoveSucceedsWhereFound(ms[i].value.members, name[d + 1..]);
        IndexHolds(ms, name[..d]);
      }
    }
  }

  lemma IndexHolds(ms: seq<Member>, name: string)
    ensures IndexOf(ms, name) < |ms| ==> ms[IndexOf(ms, name)].name == name
  {
  }

  lemma DotRemoveDescends(ms: seq<Member>, name: string)
    requires FirstDot(name).Some? && DotRemove(ms, name).0
    ensures var d := FirstDot(name).value;
            var inner := DotRemove(Inner(ms, name[..d]), name[d + 1..]);
            inner.0 && DotRemove(ms, name).1 == Set(ms, name[..d], Object(inner.1))
  {
    hide FirstDot, Find, Set;
  }

  /** Afterwards the path leads nowhere. */
  lemma {:induction false} DotRemoveThenGet(ms: seq<Member>, name: string)
    requires WellFormed(Object(ms)) && DotRemove(ms, name).0
    ensures DotGet(DotRemove(ms, name).1, name).None?
    decreases |name|
  {
    match FirstDot(name)
    case None => FindAfterRemove(ms, name, name);
    case Some(d) =>
      hide Find, Set, Remove;
      var key, rest := name[..d], name[d + 1..];
      var inner := Inner(ms, key);
      InnerWellFormed(ms, key);
      DotRemoveDescends(ms, name);
      DotRemoveThenGet(inner, rest);
      FindAfterSet(ms, key, Object(DotRemove(inner, rest).1), key);
  }

  lemma DotRemoveUnderFirst(ms: seq<Member>, name: string, k: string)
    requires DistinctNames(ms) && DotRemove(ms, name).0 && k != Components(name)[0]
    ensures Find(DotRemove(ms, name).1, k) == Find(ms, k)
  {
    match FirstDot(name)
    case None => FindAfterRemove(ms, name, k);
    case Some(d) =>
      hide Find, Set, Remove;
      DotRemoveDescends(ms, name);
      FindAfterSet(ms, name[..d], Object(DotRemove(Inner(ms, name[..d]), name[d + 1..]).1), k);
  }

  /** Paths that diverge from the removed one lead where they did. */
  lemma {:induction false} DotRemoveLeavesOthers(ms: seq<Member>, name: string, other: string)
    requires WellFormed(Object(ms)) && DotRemove(ms, name).0 && Diverge(name, other)
    ensures DotGet(DotRemove(ms, name).1, other) == DotGet(ms, other)
    decreases |name|
  {
    var key, first := Components(name)[0], Components(other)[0];
    if key != first {
      DotRemoveUnderFirst(ms, name, first);
      DotGetThroughKey(ms, DotRemove(ms, name).1, other);
    } else {
      OneComponent(name, other);
      hide FirstDot, Components, DotRemove, DotGet, Find, Set, Diverge;
      var d, e := FirstDot(name).value, FirstDot(other).value;
      var rest := name[d + 1..];
      var inner := Inner(ms, key);
      InnerWellFormed(ms, key);
      DotRemoveDescends(ms, name);
      FindAfterSet(ms, key, Object(DotRemove(inner, rest).1), key);
      DivergeInside(name, other);
      DotRemoveLeavesOthers(inner, rest, other[e + 1..]);
      DotGetInside(ms, other);
      DotGetInside(DotRemove(ms, name).1, other);
    }
  }
}

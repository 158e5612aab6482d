/**
 JSON values of parson.c as linked nodes: a node points to its parent, and a container to its
 children. Each node is a JSON_Value together with the JSON_Object or JSON_Array it wraps.
 */
module JsonNodes {
  import opened Options
  import opened CString
  import opened JsonTree
  import P = JsonPaths

  datatype Kind = Scalar(v: Json) | ArrayKind | ObjectKind

  class Node {
    const kind: Kind
    var parent: Node?
    var names: seq<string>
    var values: seq<Node>
    var capacity: nat

    ghost var tree: Json         // the value the node stands for
    ghost var Repr: set<object>  // the node and everything below it

    /**
     Names are distinct, there is room for all members, children point back here, their trees are
     disjoint, and `tree` is built from theirs.
     */
    ghost predicate Valid()
      reads this, Repr
      ensures Valid() ==> this in Repr
      decreases Repr
    {
      && this in Repr
      && LocalValid()
      && (forall i :: 0 <= i < |values| ==>
            && values[i] in Repr && values[i].Repr <= Repr && this !in values[i].Repr
            && values[i].parent == this && values[i].Valid()
            && ChildTree(i) == values[i].tree)
      && (forall i, j :: 0 <= i < j < |values| ==> values[i].Repr !! values[j].Repr)
    }

    lemma Unfolded()
      requires Valid()
      ensures LocalValid()
      ensures forall i :: 0 <= i < |values| ==>
                && values[i] in Repr && values[i].Repr <= Repr && this !in values[i].Repr
                && values[i].parent == this && values[i].Valid()
                && ChildTree(i) == values[i].tree
      ensures forall i, j :: 0 <= i < j < |values| ==> values[i].Repr !! values[j].Repr
    {
    }

    lemma Folded()
      requires this in Repr && LocalValid()
      requires forall i :: 0 <= i < |values| ==>
                 && values[i] in Repr && values[i].Repr <= Repr && this !in values[i].Repr
                 && values[i].parent == this && values[i].Valid()
                 && ChildTree(i) == values[i].tree
      requires forall i, j :: 0 <= i < j < |values| ==> values[i].Repr !! values[j].Repr
      ensures Valid()
    {
    }

    /** What holds of the node's own fields. */
    ghost predicate LocalValid()
      reads this
    {
      && |values| <= capacity
      && match kind
      case Scalar(v) => values == [] && names == [] && tree == v && !v.Array? && !v.Object? && WellFormed(v)
      case ArrayKind => names == [] && tree.Array? && |tree.items| == |values|
      case ObjectKind =>
        && tree.Object? && |tree.members| == |values| == |names|
        && (forall i :: 0 <= i < |names| ==> tree.members[i].name == names[i] && NulFree(names[i]))
        && DistinctNames(tree.members)
    }

    ghost function ChildTree(i: nat): Json
      requires LocalValid() && i < |values|
      reads this
    {
      match tree
      case Array(items) => items[i]
      case Object(ms) => ms[i].value
      case _ => Null
    }

    /** json_value_init_object. */
    constructor InitObject()
      ensures Valid() && fresh(Repr) && Repr == {this} && parent == null && kind == ObjectKind && tree == Object([])
    {
      kind := ObjectKind;
      parent := null;
      names, values, capacity := [], [], 0;
      tree := Object([]);
      Repr := {this};
    }

    /** json_value_init_string and its siblings, on a string that has passed the check of its UTF-8. */
    constructor InitScalar(v: Json)
      requires !v.Array? && !v.Object? && WellFormed(v)
      ensures Valid() && fresh(Repr) && Repr == {this} && parent == null && kind == Scalar(v) && tree == v
    {
      kind := Scalar(v);
      parent := null;
      names, values, capacity := [], [], 0;
      tree := v;
      Repr := {this};
    }

    /** json_object_nget_value's loop: the index of the first equal name, or the count. */
    method IndexOfName(name: string) returns (i: nat)
      requires Valid() && kind.ObjectKind?
      ensures i == P.IndexOf(tree.members, name)
      ensures i < |values| <==> Find(tree.members, name).Some?
      ensures i < |values| ==> names[i] == name && Find(tree.members, name) == Some(values[i].tree)
    {
      i := 0;
      while i < |values|
        invariant i <= |values|
        invariant forall j :: 0 <= j < i ==> names[j] != name
      {
        if names[i] == name {
          break;
        }
        i := i + 1;
      }
      IndexIs(tree.members, name, i);
    }

    /** json_object_resize: room for `newCapacity` members, no fewer than there are. */
    method Resize(newCapacity: nat) returns (ok: bool)
      requires Valid() && |values| <= newCapacity
      modifies this
      ensures Valid() && ok == (newCapacity != 0)
      ensures capacity == if ok then newCapacity else old(capacity)
      ensures names == old(names) && values == old(values) && parent == old(parent)
      ensures tree == old(tree) && Repr == old(Repr)
    {
      if newCapacity == 0 {
        return false;
      }
      capacity := newCapacity;
      ok := true;
    }

    /** json_object_add: a new name goes to the end, a name already there is refused. */
    method Add(name: string, value: Node) returns (ok: bool)
      requires Valid() && kind.ObjectKind? && NulFree(name)
      requires value.Valid() && value.Repr !! Repr
      modifies this, value
      ensures Valid() && value.Valid() && parent == old(parent)
      ensures ok <==> Find(old(tree).members, name).None?
      ensures value.tree == old(value.tree) && value.Repr == old(value.Repr)
      ensures !ok ==> tree == old(tree) && Repr == old(Repr)
      ensures !ok ==> value.parent == old(value.parent) && values == old(values)
      ensures ok ==>
                && tree == Object(old(tree).members + [Member(name, value.tree)])
                && Repr == old(Repr) + value.Repr && value.parent == this
                && names == old(names) + [name] && values == old(values) + [value]
      ensures capacity == if ok then P.Grown(|old(values)|, old(capacity)) else old(capacity)
    {
      var i := IndexOfName(name);
      if i < |values| {
        return false;
      }
      if |values| >= capacity {
        var resized := Resize(if capacity * 2 < P.STARTING_CAPACITY then P.STARTING_CAPACITY else capacity * 2);
      }
      Append(name, value);
      ok := true;
    }

    /** The end of json_object_add, where there is room for a new name. */
    method Append(name: string, value: Node)
      requires Valid() && kind.ObjectKind? && NulFree(name)
      requires value.Valid() && value.Repr !! Repr
      requires Find(tree.members, name).None? && |values| < capacity
      modifies this, value
      ensures Valid() && value.Valid() && parent == old(parent)
      ensures value.tree == old(value.tree) && value.Repr == old(value.Repr)
      ensures tree == Object(old(tree).members + [Member(name, value.tree)])
      ensures Repr == old(Repr) + value.Repr && value.parent == this
      ensures names == old(names) + [name] && values == old(values) + [value] && capacity == old(capacity)
    {
      hide Valid;
      Unfolded();
      value.parent := this;
      Reparented(value);
      names := names + [name];
      values := values + [value];
      tree := Object(tree.members + [Member(name, value.tree)]);
      Repr := Repr + value.Repr;
      forall i | 0 <= i < |old(values)|
        ensures values[i].Valid()
      {
        assert value !in old(values[i].Repr);
      }
      Folded();
    }

    /** The middle of json_object_set_value: the value at an index is freed and replaced. */
    method Replace(i: nat, value: Node)
      requires Valid() && kind.ObjectKind? && i < |values|
      requires value.Valid() && value.Repr !! Repr
      modifies this, value
      ensures Valid() && value.Valid() && parent == old(parent)
      ensures value.tree == old(value.tree) && value.Repr == old(value.Repr)
      ensures tree == Object(old(tree).members[i := Member(old(names)[i], value.tree)])
      ensures Repr == old(Repr) + value.Repr && value.parent == this
      ensures names == old(names) && values == old(values)[i := value] && capacity == old(capacity)
      ensures old(values)[i] !in values
    {
      hide Valid;
      Unfolded();
      value.parent := this;
      Reparented(value);
      values := values[i := value];
      tree := Object(tree.members[i := Member(names[i], value.tree)]);
      Repr := Repr + value.Repr;
      forall j | 0 <= j < |values| && j != i
        ensures values[j].Valid()
      {
        assert value !in old(values[j].Repr);
      }
      Folded();
    }

    /** The arrays after a set: the value at the index is replaced and gone, or a member is new at the end. */
    ghost predicate SetIn(oldNames: seq<string>, oldValues: seq<Node>, oldCapacity: nat,
                          i: nat, name: string, value: Node)
      reads this
    {
      if i < |oldValues| then
        && names == oldNames && values == oldValues[i := value] && oldValues[i] !in values
        && capacity == oldCapacity
      else
        && names == oldNames + [name] && values == oldValues + [value]
        && capacity == P.Grown(|oldValues|, oldCapacity)
    }

    /** json_object_set_value. A value that already has a parent is refused. */
    method Set(name: string, value: Node) returns (ok: bool)
      requires Valid() && kind.ObjectKind? && NulFree(name)
      requires value.Valid() && value.Repr !! Repr
      modifies this, value
      ensures Valid() && value.Valid() && parent == old(parent)
      ensures value.tree == old(value.tree) && value.Repr == old(value.Repr)
      ensures ok <==> old(value.parent) == null
      ensures !ok ==> tree == old(tree) && Repr == old(Repr) && value.parent == old(value.parent)
      ensures ok ==> tree == Object(P.Set(old(tree).members, name, value.tree))
      ensures ok ==> Repr == old(Repr) + value.Repr && value.parent == this
      ensures ok ==> SetIn(old(names), old(values), old(capacity), P.IndexOf(old(tree).members, name), name, value)
    {
      hide Valid;
      Unfolded();
      if value.parent != null {
        return false;
      }
      P.SetIs(tree.members, name, value.tree);
      var i := IndexOfName(name);
      if i < |values| {
        Replace(i, value);
        ok := true;
      } else {
        ok := Add(name, value);
      }
    }

    /** json_object_remove: the last member takes the place of the removed one. */
    method Remove(name: string) returns (ok: bool)
      requires Valid() && kind.ObjectKind?
      modifies this
      ensures Valid() && parent == old(parent) && Repr == old(Repr)
      ensures ok <==> Find(old(tree).members, name).Some?
      ensures tree == if ok then Object(P.Remove(old(tree).members, name)) else old(tree)
    {
      hide Valid, P.Remove;
      Unfolded();
      var i := IndexOfName(name);
      if i == |values| {
        return false;
      }
      P.RemoveIs(tree.members, name);
      TakeOut(i, P.Remove(tree.members, name));
      ok := true;
    }

    /** The member at an index gives way to the last one. */
    method TakeOut(i: nat, ghost rest: seq<Member>)
      requires Valid() && kind.ObjectKind? && i < |values|
      requires tree.Object? && |tree.members| == |values| == |rest| + 1 && DistinctNames(rest)
      requires forall j :: 0 <= j < |rest| ==> rest[j] == tree.members[if j == i then |rest| else j]
      modifies this
      ensures Valid() && parent == old(parent) && Repr == old(Repr)
      ensures tree == Object(rest)
    {
      hide Valid;
      Unfolded();
      var last := |values| - 1;
      if i != last {
        names := names[i := names[last]];
        values := values[i := values[last]];
      }
      names, values := names[..last], values[..last];
      tree := Object(rest);
      assert forall j :: 0 <= j < last ==> values[j] == old(values)[if j == i then last else j];
      assert forall j :: 0 <= j < last ==> names[j] == old(names)[if j == i then last else j];
      Folded();
    }

    /** json_object_clear. */
    method Clear()
      requires Valid() && kind.ObjectKind?
      modifies this
      ensures Valid() && parent == old(parent) && Repr == old(Repr) && capacity == old(capacity)
      ensures tree == Object([])
    {
      names, values := [], [];
      tree := Object([]);
    }

    /** The node a dotted path leads to. */
    ghost function NodeAt(name: string): Node?
      requires Valid() && kind.ObjectKind?
      reads this, Repr
      decreases |name|
    {
      var dot := P.FirstDot(name);
      var i := P.IndexOf(tree.members, if dot.None? then name else name[..dot.value]);
      if i >= |values| then null
      else if dot.None? then values[i]
      else if values[i].kind.ObjectKind? then values[i].NodeAt(name[dot.value + 1..])
      else null
    }

    lemma NodeAtStep(name: string, i: nat)
      requires Valid() && kind.ObjectKind? && P.FirstDot(name).Some?
      requires LocalValid() && i < |values|
      requires P.IndexOf(tree.members, name[..P.FirstDot(name).value]) == i && values[i].kind.ObjectKind?
      ensures values[i].Valid() && NodeAt(name) == values[i].NodeAt(name[P.FirstDot(name).value + 1..])
    {
      hide P.FirstDot, P.IndexOf;
    }

    lemma NodeAtPlain(name: string)
      requires Valid() && kind.ObjectKind? && P.FirstDot(name).None?
      ensures tree.Object?
      ensures var i := P.IndexOf(tree.members, name); NodeAt(name) == if i < |values| then values[i] else null
    {
    }

    lemma NodeAtNothing(name: string)
      requires Valid() && kind.ObjectKind? && P.FirstDot(name).Some?
      requires var i := P.IndexOf(tree.members, name[..P.FirstDot(name).value]);
               i >= |values| || !values[i].kind.ObjectKind?
      ensures NodeAt(name) == null
    {
    }

    /**
     json_object_dotset_value, in place: the objects on the way are looked up or created, and the
     value is set in the last of them.
     */
    method DotSet(name: string, value: Node) returns (ok: bool)
      requires Valid() && kind.ObjectKind? && NulFree(name)
      requires value.Valid() && value.Repr !! Repr
      modifies Repr, value
      ensures Valid() && value.Valid() && parent == old(parent)
      ensures value.tree == old(value.tree) && value.Repr == old(value.Repr)
      ensures old(Repr) <= Repr && fresh(Repr - old(Repr) - (if ok then value.Repr else {}))
      ensures tree.Object?
      ensures old(value.parent) == null ==> (ok, tree.members) == P.DotSet(old(tree).members, name, value.tree)
      ensures old(value.parent) != null ==> !ok && tree.members == P.DotCreate(old(tree).members, name)
      ensures !ok ==> value.parent == old(value.parent)
      ensures ok ==> NodeAt(name) == value
      decreases |name|, 0
    {
      hide Valid, P.FirstDot, P.IndexOf, P.Set, P.DotSet, P.DotCreate, Find, NodeAt;
      Unfolded();
      var dot := P.FirstDot(name);
      if dot.None? {
        P.DotSetPlain(tree.members, name, value.tree);
        ok := SetPlain(name, value);
        return;
      }
      var key, rest := name[..dot.value], name[dot.value + 1..];
      P.DotSetStep(tree.members, name, value.tree);
      var i := IndexOfName(key);
      if i == |values| {
        var created := new Node.InitObject();
        var added := Add(key, created);
      } else {
        values[i].Unfolded();
        if !values[i].kind.ObjectKind? {
          return false;
        }
      }
      ok := DotSetInChild(i, rest, value);
      Unfolded();
      IndexKept(tree.members, key, i);
      NodeAtStep(name, i);
    }

    /** The last step of a dotted set. */
    method SetPlain(name: string, value: Node) returns (ok: bool)
      requires Valid() && kind.ObjectKind? && NulFree(name) && P.FirstDot(name).None?
      requires value.Valid() && value.Repr !! Repr
      modifies this, value
      ensures Valid() && value.Valid() && parent == old(parent)
      ensures value.tree == old(value.tree) && value.Repr == old(value.Repr)
      ensures ok <==> old(value.parent) == null
      ensures !ok ==> tree == old(tree) && Repr == old(Repr) && value.parent == old(value.parent)
      ensures ok ==> tree == Object(P.Set(old(tree).members, name, value.tree))
      ensures ok ==> Repr == old(Repr) + value.Repr && NodeAt(name) == value
    {
      hide Valid, P.FirstDot, P.IndexOf, P.Set, P.DotSet, P.DotCreate, Find, NodeAt;
      Unfolded();
      ghost var ms := tree.members;
      ok := Set(name, value);
      if ok {
        P.FirstIndexAfterSet(ms, name, value.tree);
        Unfolded();
        NodeAtPlain(name);
      }
    }

    /** The descent of json_object_dotset_value into the object at an index. */
    method DotSetInChild(i: nat, rest: string, value: Node) returns (ok: bool)
      requires Valid() && kind.ObjectKind? && i < |values| && values[i].kind.ObjectKind? && NulFree(rest)
      requires value.Valid() && value.Repr !! Repr
      modifies Repr, value
      ensures Valid() && value.Valid() && parent == old(parent)
      ensures value.tree == old(value.tree) && value.Repr == old(value.Repr)
      ensures old(Repr) <= Repr && fresh(Repr - old(Repr) - (if ok then value.Repr else {}))
      ensures i < |old(tree).members| && old(tree).members[i].value.Object?
      ensures var inner := old(tree).members[i].value.members;
              var created := old(value.parent) != null;
              var updated := if created then (false, P.DotCreate(inner, rest)) else P.DotSet(inner, rest, value.tree);
              && ok == updated.0
              && tree == Object(old(tree).members[i := Member(old(tree).members[i].name, Object(updated.1))])
      ensures !ok ==> value.parent == old(value.parent)
      ensures values == old(values) && names == old(names) && values[i].Valid()
      ensures ok ==> values[i].NodeAt(rest) == value
      decreases |rest|, 1
    {
      hide Valid, NodeAt, P.DotSet, P.DotCreate;
      Unfolded();
      var child := values[i];
      child.Unfolded();
      ok := child.DotSet(rest, value);
      tree := Object(tree.members[i := Member(names[i], child.tree)]);
      Repr := Repr + child.Repr;
      forall j | 0 <= j < |values| && j != i
        ensures values[j].Valid() && values[j].tree == old(values[j].tree)
      {
      }
      Folded();
    }

    /** json_object_dotget_value. */
    method DotGet(name: string) returns (found: Node?)
      requires Valid() && kind.ObjectKind?
      ensures tree.Object? && (found == null <==> P.DotGet(tree.members, name).None?)
      ensures found != null ==> found.Valid() && P.DotGet(tree.members, name) == Some(found.tree)
      ensures found == NodeAt(name)
      decreases |name|
    {
      hide Valid, P.FirstDot, P.IndexOf, Find, NodeAt;
      Unfolded();
      var dot := P.FirstDot(name);
      if dot.None? {
        P.DotRemovePlain(tree.members, name);
        var i := IndexOfName(name);
        NodeAtPlain(name);
        return if i < |values| then values[i] else null;
      }
      P.DotGetStep(tree.members, name);
      var i := IndexOfName(name[..dot.value]);
      if i == |values| {
        NodeAtNothing(name);
        return null;
      }
      values[i].Unfolded();
      if !values[i].kind.ObjectKind? {
        NodeAtNothing(name);
        return null;
      }
      NodeAtStep(name, i);
      found := values[i].DotGet(name[dot.value + 1..]);
    }

    /** json_object_dotremove, in place. */
    method DotRemove(name: string) returns (ok: bool)
      requires Valid() && kind.ObjectKind?
      modifies Repr
      ensures Valid() && parent == old(parent) && Repr == old(Repr)
      ensures tree.Object? && (ok, tree.members) == P.DotRemove(old(tree).members, name)
      decreases |name|
    {
      hide Valid, P.FirstDot, P.IndexOf, P.Set, P.Remove, P.DotRemove, Find;
      Unfolded();
      var dot := P.FirstDot(name);
      if dot.None? {
        P.DotRemovePlain(tree.members, name);
        ok := Remove(name);
        return;
      }
      P.DotRemoveStep(tree.members, name);
      var i := IndexOfName(name[..dot.value]);
      if i == |values| {
        return false;
      }
      var child := values[i];
      child.Unfolded();
      if !child.kind.ObjectKind? {
        return false;
      }
      ok := child.DotRemove(name[dot.value + 1..]);
      tree := Object(tree.members[i := Member(names[i], child.tree)]);
      forall j | 0 <= j < |values| && j != i
        ensures values[j].Valid() && values[j].tree == old(values[j].tree)
      {
      }
      Folded();
    }

    // ----- arrays -----

    /** json_value_init_array. */
    constructor InitArray()
      ensures Valid() && fresh(Repr) && Repr == {this} && parent == null && kind == ArrayKind && tree == Array([])
    {
      kind := ArrayKind;
      parent := null;
      names, values, capacity := [], [], 0;
      tree := Array([]);
      Repr := {this};
    }

    /** json_array_append_value. A value that already has a parent is refused. */
    method AppendItem(value: Node) returns (ok: bool)
      requires Valid() && kind.ArrayKind?
      requires value.Valid() && value.Repr !! Repr
      modifies this, value
      ensures Valid() && value.Valid() && parent == old(parent)
      ensures value.tree == old(value.tree) && value.Repr == old(value.Repr)
      ensures ok <==> old(value.parent) == null
      ensures !ok ==> tree == old(tree) && Repr == old(Repr) && value.parent == old(value.parent)
      ensures ok ==> tree == Array(old(tree).items + [value.tree]) && values == old(values) + [value]
      ensures ok ==> Repr == old(Repr) + value.Repr && value.parent == this
      ensures capacity == if ok then P.Grown(|old(values)|, old(capacity)) else old(capacity)
    {
      hide Valid;
      Unfolded();
      if value.parent != null {
        return false;
      }
      if |values| >= capacity {
        capacity := if capacity * 2 < P.STARTING_CAPACITY then P.STARTING_CAPACITY else capacity * 2;
      }
      value.parent := this;
      Reparented(value);
      values := values + [value];
      tree := Array(tree.items + [value.tree]);
      Repr := Repr + value.Repr;
      forall i | 0 <= i < |old(values)|
        ensures values[i].Valid()
      {
        assert value !in old(values[i].Repr);
      }
      Folded();
      ok := true;
    }

    /** json_array_remove: the items after the removed one move down by one place. */
    method RemoveItem(ix: nat) returns (ok: bool)
      requires Valid() && kind.ArrayKind?
      modifies this
      ensures Valid() && parent == old(parent) && Repr == old(Repr)
      ensures ok <==> ix < |old(tree).items|
      ensures tree == if ok then Array(old(tree).items[..ix] + old(tree).items[ix + 1..]) else old(tree)
    {
      hide Valid;
      Unfolded();
      if ix >= |values| {
        return false;
      }
      values := values[..ix] + values[ix + 1..];
      tree := Array(tree.items[..ix] + tree.items[ix + 1..]);
      assert forall j :: 0 <= j < |values| ==> values[j] == old(values)[if j < ix then j else j + 1];
      Folded();
      ok := true;
    }
  }

  // ----- json_value_deep_copy -----

  /**
   The copy is the same tree in new nodes only, so it shares none with the original, which stays as
   it is. With distinct names it cannot fail.
   */
  method DeepCopy(v: Node) returns (copy: Node)
    requires v.Valid()
    ensures copy.Valid() && fresh(copy.Repr) && copy.parent == null
    ensures copy.tree == v.tree && copy.kind == v.kind
    ensures v.Valid() && unchanged(v.Repr)
    decreases v.tree, 1
  {
    v.Unfolded();
    if v.kind.ObjectKind? {
      copy := CopyMembers(v);
    } else if v.kind.ArrayKind? {
      copy := CopyItems(v);
    } else {
      copy := new Node.InitScalar(v.kind.v);
    }
  }

  method CopyItems(v: Node) returns (copy: Node)
    requires v.Valid() && v.kind.ArrayKind?
    ensures copy.Valid() && fresh(copy.Repr) && copy.parent == null && copy.kind == v.kind && copy.tree == v.tree
    decreases v.tree, 0
  {
    hide Node.Valid;
    v.Unfolded();
    copy := new Node.InitArray();
    for i := 0 to |v.values|
      invariant copy.Valid() && fresh(copy.Repr) && copy.parent == null && copy.kind == ArrayKind
      invariant copy.tree == Array(v.tree.items[..i])
    {
      var item := DeepCopy(v.values[i]);
      var added := copy.AppendItem(item);
      assert v.tree.items[..i] + [v.tree.items[i]] == v.tree.items[..i + 1];
    }
  }

  /** Values are looked up by the name at each index and added under it. */
  method CopyMembers(v: Node) returns (copy: Node)
    requires v.Valid() && v.kind.ObjectKind?
    ensures copy.Valid() && fresh(copy.Repr) && copy.parent == null && copy.kind == v.kind && copy.tree == v.tree
    decreases v.tree, 0
  {
    hide Node.Valid, Find, P.IndexOf;
    v.Unfolded();
    copy := new Node.InitObject();
    for i := 0 to |v.values|
      invariant copy.Valid() && fresh(copy.Repr) && copy.parent == null && copy.kind == ObjectKind
      invariant copy.tree == Object(v.tree.members[..i])
    {
      var ms := v.tree.members;
      var key := v.names[i];
      IndexKept(ms, key, i);
      var index := v.IndexOfName(key);
      var value := DeepCopy(v.values[index]);
      NewName(ms, i);
      var added := copy.Add(key, value);
      assert ms[..i] + [ms[i]] == ms[..i + 1];
    }
  }

  lemma NewName(ms: seq<Member>, i: nat)
    requires i < |ms| && DistinctNames(ms)
    ensures Find(ms[..i], ms[i].name).None?
  {
  }

  /** Where the first member of a name is, when a new value has been put there. */
  lemma IndexKept(ms: seq<Member>, name: string, i: nat)
    requires i < |ms| && ms[i].name == name && DistinctNames(ms)
    ensures P.IndexOf(ms, name) == i
  {
    IndexIs(ms, name, i);
  }

  /** Changing only a node's parent pointer keeps its tree valid. */
  twostate lemma Reparented(n: Node)
    requires old(n.Valid()) && unchanged(old(n.Repr) - {n})
    requires n.names == old(n.names) && n.values == old(n.values) && n.capacity == old(n.capacity)
    requires n.tree == old(n.tree) && n.Repr == old(n.Repr)
    ensures n.Valid()
  {
    forall i | 0 <= i < |n.values|
      ensures n.values[i].Valid()
    {
      assert n !in old(n.values[i].Repr);
    }
  }

  /** The first index with a name is the only one before which the name does not occur. */
  lemma {:induction false} IndexIs(ms: seq<Member>, name: string, i: nat)
    requires i <= |ms| && (i < |ms| ==> ms[i].name == name)
    requires forall j :: 0 <= j < i ==> ms[j].name != name
    ensures P.IndexOf(ms, name) == i
    ensures i < |ms| <==> Find(ms, name).Some?
    ensures i < |ms| ==> Find(ms, name) == Some(ms[i].value)
  {
    if i > 0 {
      IndexIs(ms[1..], name, i - 1);
    }
  }
}

/** JSON values of parson.c as trees, and look-up by name. */
module JsonTree {
  import opened Options
  import opened CString

  datatype Member = Member(name: string, value: Json)

  datatype Json =
    | Null
    | Boolean(b: bool)
    | Number(n: real)
    | String(s: string)
    | Array(items: seq<Json>)
    | Object(members: seq<Member>)

  /** json_object_nget_value: the value beside the first equal name. */
  function Find(ms: seq<Member>, name: string): (r: Option<Json>)
    ensures r.Some? ==> exists i :: 0 <= i < |ms| && ms[i].name == name && ms[i].value == r.value
    ensures r.None? ==> forall i :: 0 <= i < |ms| ==> ms[i].name != name
  {
    if ms == [] then None
    else if ms[0].name == name then Some(ms[0].value)
    else Find(ms[1..], name)
  }

  ghost predicate DistinctNames(ms: seq<Member>) {
    forall i, j :: 0 <= i < j < |ms| ==> ms[i].name != ms[j].name
  }

  /** What every tree built by the library satisfies: distinct names, and C strings throughout. */
  ghost predicate WellFormed(v: Json) {
    match v
    case String(s) => NulFree(s)
    case Array(items) => forall i :: 0 <= i < |items| ==> WellFormed(items[i])
    case Object(ms) =>
      && DistinctNames(ms)
      && forall i :: 0 <= i < |ms| ==> NulFree(ms[i].name) && WellFormed(ms[i].value)
    case _ => true
  }

  /** No node lies more than `depth` levels below the root. */
  ghost predicate Within(v: Json, depth: int)
    decreases v
  {
    && depth >= 0
    && match v
       case Array(items) => forall i :: 0 <= i < |items| ==> Within(items[i], depth - 1)
       case Object(ms) => forall i :: 0 <= i < |ms| ==> Within(ms[i].value, depth - 1)
       case _ => true
  }

  /** Under distinct names, looking a member up by its name finds the value at its index. */
  lemma {:induction false} FindAt(ms: seq<Member>, i: nat)
    requires DistinctNames(ms) && i < |ms|
    ensures Find(ms, ms[i].name) == Some(ms[i].value)
  {
    if i > 0 {
      FindAt(ms[1..], i - 1);
    }
  }
}

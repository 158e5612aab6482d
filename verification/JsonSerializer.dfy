/** The text parson.c writes for a value, compact or pretty. */
module JsonSerializer {
  import opened JsonStrings
  import opened JsonTree
  import opened JsonParser

  function Indent(level: nat): string {
    if level == 0 then "" else "    " + Indent(level - 1)
  }

  function When(c: bool, s: string): string {
    if c then s else ""
  }

  /** The children of a container, found by name in an object as the serializer does. */
  function Child(v: Json, i: nat): (c: Json)
    requires (v.Array? && i < |v.items|) || (v.Object? && i < |v.members|)
    ensures c < v
  {
    match v
    case Array(items) => items[i]
    case Object(ms) => Find(ms, ms[i].name).value
  }

  function Count(v: Json): nat {
    match v
    case Array(items) => |items|
    case Object(ms) => |ms|
    case _ => 0
  }

  function Text(io: NumberIO, v: Json, level: nat, pretty: bool): string
    decreases v, Count(v) + 1
  {
    match v
    case Null => "null"
    case Boolean(b) => if b then "true" else "false"
    case Number(n) => io.format(n)
    case String(s) => LiteralText(s)
    case Array(_) => "[" + Body(io, v, level, pretty) + "]"
    case Object(_) => "{" + Body(io, v, level, pretty) + "}"
  }

  /** The text between the brackets. */
  function Body(io: NumberIO, v: Json, level: nat, pretty: bool): string
    requires v.Array? || v.Object?
    decreases v, Count(v), 1
  {
    When(pretty && Count(v) > 0, "\n") + Children(io, v, 0, level, pretty)
    + When(pretty && Count(v) > 0, Indent(level))
  }

  /** The text of the children from index i on. */
  function Children(io: NumberIO, v: Json, i: nat, level: nat, pretty: bool): string
    requires (v.Array? || v.Object?) && i <= Count(v)
    decreases v, Count(v) - i, 0
  {
    if i == Count(v) then ""
    else
      When(pretty, Indent(level + 1)) + Entry(io, v, i, level, pretty)
      + When(i < Count(v) - 1, ",") + When(pretty, "\n")
      + Children(io, v, i + 1, level, pretty)
  }

  function Entry(io: NumberIO, v: Json, i: nat, level: nat, pretty: bool): string
    requires (v.Array? || v.Object?) && i < Count(v)
    decreases v, 0
  {
    (if v.Object? then LiteralText(v.members[i].name) + ":" + When(pretty, " ") else "")
    + Text(io, Child(v, i), level + 1, pretty)
  }
}

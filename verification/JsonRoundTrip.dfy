/** Parsing what the serializer writes. */
module JsonRoundTrip {
  import opened Options
  import opened CString
  import opened JsonStrings
  import opened JsonTree
  import opened JsonParser
  import opened JsonSerializer

  /** What can follow a number inside the serializer's output, or at its end. */
  ghost predicate Delimited(post: string) {
    post == "" || post[0] == ',' || post[0] == ']' || post[0] == '}' || post[0] == '\n'
  }

  /** A number whose text the C library reads back exactly, in any place the serializer puts it. */
  ghost predicate Exact(io: NumberIO, n: real) {
    var s := io.format(n);
    && s != "" && StartsNumber(s[0]) && IsDecimal(s)
    && forall post: string :: Delimited(post) ==> io.scan(s + post) == Some((n, |s|))
  }

  ghost predicate NumbersExact(io: NumberIO, v: Json) {
    match v
    case Number(n) => Exact(io, n)
    case Array(items) => forall i :: 0 <= i < |items| ==> NumbersExact(io, items[i])
    case Object(ms) => forall i :: 0 <= i < |ms| ==> NumbersExact(io, ms[i].value)
    case _ => true
  }

  // ----- white space -----

  ghost predicate AllSpaces(s: string) {
    forall k :: 0 <= k < |s| ==> IsSpace(s[k])
  }

  lemma {:induction false} SpacesSkipped(s: string, t: string)
    requires AllSpaces(s)
    ensures SkipSpaces(s + t) == SkipSpaces(t)
  {
    if s == "" {
      assert s + t == t;
    } else {
      assert (s + t)[1..] == s[1..] + t;
      SpacesSkipped(s[1..], t);
    }
  }

  lemma NoSpacesSkipped(t: string)
    requires !IsSpace(Head(t))
    ensures SkipSpaces(t) == t
  {
  }

  lemma {:induction false} IndentIsSpaces(level: nat)
    ensures AllSpaces(Indent(level))
  {
    if level > 0 {
      IndentIsSpaces(level - 1);
    }
  }

  /** The text of a value starts with a character that is neither space nor terminator. */
  lemma TextStarts(io: NumberIO, v: Json, level: nat, pretty: bool)
    requires NumbersExact(io, v)
    ensures var t := Text(io, v, level, pretty); t != "" && !IsSpace(t[0]) && t[0] != NUL && t[0] != ']' && t[0] != '}'
    ensures Text(io, v, level, pretty)[0] as int < 0x80
  {
  }

  // ----- values without children -----

  lemma ScalarReadBack(io: NumberIO, v: Json, level: nat, pretty: bool, post: string)
    requires !v.Array? && !v.Object? && WellFormed(v) && NumbersExact(io, v)
    requires v.Number? ==> Delimited(post)
    ensures var t := Text(io, v, level, pretty) + post;
            Head(t) != '{' && Head(t) != '[' && ParseScalar(io, t) == Some((v, post))
  {
    var s := Text(io, v, level, pretty);
    var t := s + post;
    match v
    case String(str) =>
      LiteralReadBack(str, post);
    case Number(n) =>
      assert t[..|s|] == s && t[|s|..] == post;
    case Boolean(b) =>
      assert s <= t && t[|s|..] == post;
      assert b ==> "true" <= t;
      assert !b ==> t[0] == 'f';
    case Null =>
      assert s <= t && t[4..] == post;
  }

  // ----- the text around the children of a container -----

  /** From the last child's entry on: the closing bracket and what follows the container. */
  function Close(bracket: char, level: nat, pretty: bool, post: string): string {
    When(pretty, Indent(level)) + [bracket] + post
  }

  /** From the end of child i's entry on. */
  function Rest(io: NumberIO, v: Json, i: nat, level: nat, pretty: bool, close: string): string
    requires (v.Array? || v.Object?) && i < Count(v)
  {
    When(i < Count(v) - 1, ",") + When(pretty, "\n") + Children(io, v, i + 1, level, pretty) + close
  }

  lemma CloseReached(bracket: char, level: nat, pretty: bool, post: string)
    requires !IsSpace(bracket)
    ensures SkipSpaces(Close(bracket, level, pretty, post)) == [bracket] + post
    ensures SkipSpaces("\n" + Close(bracket, level, pretty, post)) == [bracket] + post
  {
    hide SkipSpaces, Indent;
    IndentIsSpaces(level);
    var indent := When(pretty, Indent(level));
    NoSpacesSkipped([bracket] + post);
    assert Close(bracket, level, pretty, post) == indent + ([bracket] + post);
    SpacesSkipped(indent, [bracket] + post);
    SpacesSkipped("\n", Close(bracket, level, pretty, post));
  }

  /** The entry of child i comes first once spaces are skipped, if it starts with a non-space. */
  lemma EntryReached(io: NumberIO, v: Json, i: nat, level: nat, pretty: bool, close: string)
    requires (v.Array? || v.Object?) && i < Count(v)
    requires var e := Entry(io, v, i, level, pretty); e != "" && !IsSpace(e[0])
    ensures SkipSpaces(Children(io, v, i, level, pretty) + close)
         == Entry(io, v, i, level, pretty) + Rest(io, v, i, level, pretty, close)
  {
    hide Entry, Rest, Children;
    var indent := When(pretty, Indent(level + 1));
    var e, r := Entry(io, v, i, level, pretty), Rest(io, v, i, level, pretty, close);
    IndentIsSpaces(level + 1);
    ChildrenUnrolled(io, v, i, level, pretty, close);
    SpacesSkipped(indent, e + r);
    assert (e + r)[0] == e[0];
  }

  lemma ChildrenUnrolled(io: NumberIO, v: Json, i: nat, level: nat, pretty: bool, close: string)
    requires (v.Array? || v.Object?) && i < Count(v)
    ensures Children(io, v, i, level, pretty) + close
         == When(pretty, Indent(level + 1))
            + (Entry(io, v, i, level, pretty) + Rest(io, v, i, level, pretty, close))
  {
    hide Entry, When;
    var a, e := When(pretty, Indent(level + 1)), Entry(io, v, i, level, pretty);
    var b, c := When(i < Count(v) - 1, ","), When(pretty, "\n");
    var d := Children(io, v, i + 1, level, pretty);
    assert Children(io, v, i, level, pretty) == a + e + b + c + d;
    assert (a + e + b + c + d) + close == a + (e + (b + c + d + close));
  }

  /** After the last entry the parser sees the closing bracket, after another one a comma. */
  lemma RestReached(io: NumberIO, v: Json, i: nat, level: nat, pretty: bool, bracket: char, post: string)
    requires (v.Array? || v.Object?) && i < Count(v) && (bracket == ']' || bracket == '}')
    ensures var close := Close(bracket, level, pretty, post);
            var r := Rest(io, v, i, level, pretty, close);
            && Delimited(r)
            && (i == Count(v) - 1 ==> SkipSpaces(r) == [bracket] + post)
            && (i < Count(v) - 1 ==>
                  && r != "" && r[0] == ',' && SkipSpaces(r) == r
                  && SkipSpaces(r[1..]) == SkipSpaces(Children(io, v, i + 1, level, pretty) + close))
  {
    hide SkipSpaces, Children, Indent;
    var close := Close(bracket, level, pretty, post);
    var r := Rest(io, v, i, level, pretty, close);
    var children := Children(io, v, i + 1, level, pretty);
    CloseReached(bracket, level, pretty, post);
    if i == Count(v) - 1 {
      NoChildren(io, v, level, pretty);
      assert r == When(pretty, "\n") + close;
      assert !pretty ==> r == close && close[0] == bracket;
    } else {
      assert r[0] == ',';
      NoSpacesSkipped(r);
      var more := When(pretty, "\n");
      assert r[1..] == more + (children + close);
      SpacesSkipped(more, children + close);
    }
  }

  lemma NoChildren(io: NumberIO, v: Json, level: nat, pretty: bool)
    requires v.Array? || v.Object?
    ensures Children(io, v, Count(v), level, pretty) == ""
  {
  }

  // ----- the round trip -----

  /** The children from index i on lie within the depth bound. */
  ghost predicate ChildrenWithin(v: Json, i: nat, depth: int)
    requires v.Array? || v.Object?
  {
    match v
    case Array(items) => forall j :: i <= j < |items| ==> Within(items[j], depth)
    case Object(ms) => forall j :: i <= j < |ms| ==> Within(ms[j].value, depth)
  }

  function Outcome(ok: bool, v: Json, post: string): Parsed {
    if ok then Some((v, post)) else None
  }

  /**
   Reading the compact or the pretty text of a well-formed value, at any nesting, gives back the
   value and stops right after its text when no node lies too deep, and fails otherwise.
   */
  lemma {:induction false} ValueReadBack(io: NumberIO, v: Json, level: nat, pretty: bool, post: string, nesting: nat)
    requires WellFormed(v) && NumbersExact(io, v)
    requires v.Number? ==> Delimited(post)
    ensures ParseValue(io, Text(io, v, level, pretty) + post, nesting)
         == Outcome(Within(v, MAX_NESTING - nesting), v, post)
    decreases v, Count(v) + 1
  {
    hide SkipSpaces, ParseScalar, NumbersExact, WellFormed, ParseArray, ParseObject;
    var t := Text(io, v, level, pretty) + post;
    TextStarts(io, v, level, pretty);
    NoSpacesSkipped(t);
    if nesting <= MAX_NESTING {
      if v.Array? {
        ArrayReadBack(io, v, level, pretty, post, nesting);
        ContainerWithin(v, MAX_NESTING - nesting);
      } else if v.Object? {
        ObjectReadBack(io, v, level, pretty, post, nesting);
        ContainerWithin(v, MAX_NESTING - nesting);
      } else {
        ScalarReadBack(io, v, level, pretty, post);
      }
    }
  }

  lemma ContainerWithin(v: Json, depth: int)
    requires (v.Array? || v.Object?) && depth >= 0
    ensures Within(v, depth) <==> ChildrenWithin(v, 0, depth - 1)
    ensures Count(v) == 0 ==> ChildrenWithin(v, 0, depth - 1)
  {
  }

  lemma ArrayReadBack(io: NumberIO, v: Json, level: nat, pretty: bool, post: string, nesting: nat)
    requires WellFormed(v) && NumbersExact(io, v) && v.Array? && nesting <= MAX_NESTING
    ensures var t := Text(io, v, level, pretty) + post;
            Head(t) == '[' && ParseArray(io, t, nesting + 1)
                              == Outcome(ChildrenWithin(v, 0, MAX_NESTING - nesting - 1), v, post)
    decreases v, Count(v), 1
  {
    hide *;
    var t := Text(io, v, level, pretty) + post;
    CountIs(v);
    ContainerWithin(v, MAX_NESTING - nesting);
    OutcomeIs(ChildrenWithin(v, 0, MAX_NESTING - nesting - 1), v, post);
    InsideReached(io, v, level, pretty, post);
    HeadIs(t, '[');
    ArrayEntered(io, t, nesting + 1);
    if Count(v) == 0 {
      HeadIs([']'] + post, ']');
      assert v == Array([]) && ([']'] + post)[1..] == post;
    } else {
      ChildReached(io, v, 0, level, pretty, Close(']', level, pretty, post));
      assert v.items[..0] == [];
      ItemsReadBack(io, v, 0, level, pretty, post, nesting + 1);
    }
  }

  lemma ObjectReadBack(io: NumberIO, v: Json, level: nat, pretty: bool, post: string, nesting: nat)
    requires WellFormed(v) && NumbersExact(io, v) && v.Object? && nesting <= MAX_NESTING
    ensures var t := Text(io, v, level, pretty) + post;
            Head(t) == '{' && ParseObject(io, t, nesting + 1)
                              == Outcome(ChildrenWithin(v, 0, MAX_NESTING - nesting - 1), v, post)
    decreases v, Count(v), 1
  {
    hide *;
    var t := Text(io, v, level, pretty) + post;
    CountIs(v);
    ContainerWithin(v, MAX_NESTING - nesting);
    OutcomeIs(ChildrenWithin(v, 0, MAX_NESTING - nesting - 1), v, post);
    InsideReached(io, v, level, pretty, post);
    HeadIs(t, '{');
    ObjectEntered(io, t, nesting + 1);
    if Count(v) == 0 {
      HeadIs(['}'] + post, '}');
      assert v == Object([]) && (['}'] + post)[1..] == post;
    } else {
      ChildReached(io, v, 0, level, pretty, Close('}', level, pretty, post));
      assert v.members[..0] == [];
      MembersReadBack(io, v, 0, level, pretty, post, nesting + 1);
    }
  }

  lemma ArrayEntered(io: NumberIO, t: string, nesting: nat)
    requires Head(t) == '['
    ensures t != ""
    ensures var u := SkipSpaces(t[1..]);
            ParseArray(io, t, nesting) ==
            if Head(u) == ']' then Some((Array([]), u[1..])) else ParseItems(io, u, nesting, [])
  {
    hide ParseItems, SkipSpaces;
  }

  lemma ObjectEntered(io: NumberIO, t: string, nesting: nat)
    requires Head(t) == '{'
    ensures t != ""
    ensures var u := SkipSpaces(t[1..]);
            ParseObject(io, t, nesting) ==
            if Head(u) == '}' then Some((Object([]), u[1..])) else ParseMembers(io, u, nesting, [])
  {
    hide ParseMembers, SkipSpaces;
  }

  lemma InsideReached(io: NumberIO, v: Json, level: nat, pretty: bool, post: string)
    requires v.Array? || v.Object?
    ensures var bracket := if v.Array? then ']' else '}';
            var t := Text(io, v, level, pretty) + post;
            && t != "" && t[0] == (if v.Array? then '[' else '{')
            && (Count(v) == 0 ==> SkipSpaces(t[1..]) == [bracket] + post)
            && (Count(v) > 0 ==>
                  SkipSpaces(t[1..]) ==
                  SkipSpaces(Children(io, v, 0, level, pretty) + Close(bracket, level, pretty, post)))
  {
    hide *;
    var bracket := if v.Array? then ']' else '}';
    var open := if v.Array? then '[' else '{';
    var t := Text(io, v, level, pretty) + post;
    var close := Close(bracket, level, pretty, post);
    BracketsAround(io, v, level, pretty, post);
    assert t[1..] == Body(io, v, level, pretty) + ([bracket] + post);
    BodyIs(io, v, level, pretty, [bracket] + post);
    CloseIs(bracket, level, pretty, post);
    if Count(v) == 0 {
      NoSpacesSkipped([bracket] + post);
    } else {
      SpacesSkipped(When(pretty, "\n"), Children(io, v, 0, level, pretty) + close);
    }
  }

  lemma BracketsAround(io: NumberIO, v: Json, level: nat, pretty: bool, post: string)
    requires v.Array? || v.Object?
    ensures Text(io, v, level, pretty) + post
         == [if v.Array? then '[' else '{'] + (Body(io, v, level, pretty) + ([if v.Array? then ']' else '}'] + post))
  {
    hide Body;
  }

  lemma CloseIs(bracket: char, level: nat, pretty: bool, post: string)
    ensures Close(bracket, level, pretty, post) == When(pretty, Indent(level)) + ([bracket] + post)
    ensures AllSpaces(When(pretty, "\n"))
    ensures bracket == ']' || bracket == '}' ==> !IsSpace(Head([bracket] + post))
  {
    hide Indent;
  }

  lemma BodyIs(io: NumberIO, v: Json, level: nat, pretty: bool, after: string)
    requires v.Array? || v.Object?
    ensures Count(v) == 0 ==> Body(io, v, level, pretty) + after == after
    ensures Count(v) > 0 ==>
              Body(io, v, level, pretty) + after
              == When(pretty, "\n") + (Children(io, v, 0, level, pretty) + (When(pretty, Indent(level)) + after))
  {
    if Count(v) == 0 {
      NoChildren(io, v, level, pretty);
    }
    hide Children, Indent, Count;
    var a, b, c := When(pretty, "\n"), Children(io, v, 0, level, pretty), When(pretty, Indent(level));
    assert a + b + c + after == a + (b + (c + after));
    assert "" + "" + "" + after == after;
  }

  /** Once spaces are skipped child i's entry is next, and it starts like a value or a name. */
  lemma ChildReached(io: NumberIO, v: Json, i: nat, level: nat, pretty: bool, close: string)
    requires (v.Array? || v.Object?) && i < Count(v) && WellFormed(v) && NumbersExact(io, v)
    ensures var t := SkipSpaces(Children(io, v, i, level, pretty) + close);
            && t == Entry(io, v, i, level, pretty) + Rest(io, v, i, level, pretty, close)
            && Head(t) != NUL && Head(t) != ']' && Head(t) != '}'
  {
    hide Children, Rest, SkipSpaces, WellFormed, Text;
    var e := Entry(io, v, i, level, pretty);
    if v.Array? {
      TextStarts(io, v.items[i], level + 1, pretty);
    }
    assert e[0] == (if v.Array? then Text(io, v.items[i], level + 1, pretty)[0] else '"');
    EntryReached(io, v, i, level, pretty, close);
  }

  lemma ChildrenWithinFrom(v: Json, i: nat, depth: int)
    requires (v.Array? || v.Object?) && i < Count(v)
    ensures var child := if v.Array? then v.items[i] else v.members[i].value;
            ChildrenWithin(v, i, depth) <==> Within(child, depth) && ChildrenWithin(v, i + 1, depth)
    ensures ChildrenWithin(v, Count(v), depth)
  {
    hide Within;
  }

  /** One round of parse_array_value's loop. */
  lemma ItemsRound(io: NumberIO, t: string, nesting: nat, items: seq<Json>)
    requires Head(t) != NUL
    ensures ParseValue(io, t, nesting).None? ==> ParseItems(io, t, nesting, items).None?
    ensures ParseValue(io, t, nesting).Some? ==>
              var (v, t1) := ParseValue(io, t, nesting).value;
              var t2 := SkipSpaces(t1);
              ParseItems(io, t, nesting, items) ==
                if Head(t2) != ',' then FinishArray(t2, items + [v])
                else ParseItems(io, SkipSpaces(t2[1..]), nesting, items + [v])
  {
    hide ParseValue, SkipSpaces;
  }

  lemma RestDelimited(io: NumberIO, v: Json, i: nat, level: nat, pretty: bool, bracket: char, post: string)
    requires (v.Array? || v.Object?) && i < Count(v) && (bracket == ']' || bracket == '}')
    ensures Delimited(Rest(io, v, i, level, pretty, Close(bracket, level, pretty, post)))
  {
    hide *;
    RestReached(io, v, i, level, pretty, bracket, post);
  }

  /** What the round at item i makes of the loop, given what reading the item's text gives. */
  lemma ItemRound(io: NumberIO, v: Json, i: nat, level: nat, pretty: bool, post: string, nesting: nat)
    requires WellFormed(v) && NumbersExact(io, v) && v.Array? && i < Count(v)
    requires var rest := Rest(io, v, i, level, pretty, Close(']', level, pretty, post));
             ParseValue(io, Text(io, v.items[i], level + 1, pretty) + rest, nesting)
             == Outcome(Within(v.items[i], MAX_NESTING - nesting), v.items[i], rest)
    ensures var close := Close(']', level, pretty, post);
            var r := ParseItems(io, SkipSpaces(Children(io, v, i, level, pretty) + close), nesting, v.items[..i]);
            if !Within(v.items[i], MAX_NESTING - nesting) then r.None?
            else if i == Count(v) - 1 then r == Some((v, post))
            else
              r == ParseItems(io, SkipSpaces(Children(io, v, i + 1, level, pretty) + close), nesting, v.items[..i + 1])
  {
    hide *;
    CountIs(v);
    var close := Close(']', level, pretty, post);
    var item, rest := v.items[i], Rest(io, v, i, level, pretty, close);
    ArrayEntry(io, v, i, level, pretty);
    ChildReached(io, v, i, level, pretty, close);
    RestReached(io, v, i, level, pretty, ']', post);
    ItemsRound(io, SkipSpaces(Children(io, v, i, level, pretty) + close), nesting, v.items[..i]);
    OutcomeIs(Within(item, MAX_NESTING - nesting), item, rest);
    TakeOneMore(v.items, i);
    if i < Count(v) - 1 {
      HeadIs(rest, ',');
    } else {
      ArrayClosed(v.items, post);
    }
  }

  lemma {:induction false} ItemsReadBack(io: NumberIO, v: Json, i: nat, level: nat, pretty: bool, post: string,
                                         nesting: nat)
    requires WellFormed(v) && NumbersExact(io, v) && v.Array? && i < Count(v)
    ensures var t := Children(io, v, i, level, pretty) + Close(']', level, pretty, post);
            ParseItems(io, SkipSpaces(t), nesting, v.items[..i]) ==
            Outcome(ChildrenWithin(v, i, MAX_NESTING - nesting), v, post)
    decreases v, Count(v) - i, 0
  {
    hide *;
    CountIs(v);
    var close := Close(']', level, pretty, post);
    ChildOk(io, v, i);
    RestDelimited(io, v, i, level, pretty, ']', post);
    ValueReadBack(io, v.items[i], level + 1, pretty, Rest(io, v, i, level, pretty, close), nesting);
    ItemRound(io, v, i, level, pretty, post, nesting);
    ChildrenWithinFrom(v, i, MAX_NESTING - nesting);
    OutcomeIs(ChildrenWithin(v, i, MAX_NESTING - nesting), v, post);
    if Within(v.items[i], MAX_NESTING - nesting) && i < Count(v) - 1 {
      ItemsReadBack(io, v, i + 1, level, pretty, post, nesting);
      OutcomeIs(ChildrenWithin(v, i + 1, MAX_NESTING - nesting), v, post);
    }
  }

  lemma TakeOneMore<T>(s: seq<T>, i: nat)
    requires i < |s|
    ensures s[..i] + [s[i]] == s[..i + 1]
    ensures i + 1 == |s| ==> s[..i + 1] == s
  {
  }

  lemma OutcomeIs(ok: bool, v: Json, post: string)
    ensures Outcome(ok, v, post) == if ok then Some((v, post)) else None
  {
  }

  lemma CountIs(v: Json)
    ensures v.Array? ==> Count(v) == |v.items|
    ensures v.Object? ==> Count(v) == |v.members|
  {
  }

  lemma ArrayClosed(items: seq<Json>, post: string)
    requires items != []
    ensures Head([']'] + post) != ',' && FinishArray([']'] + post, items) == Some((Array(items), post))
  {
    NoSpacesSkipped([']'] + post);
    assert ([']'] + post)[1..] == post;
  }

  lemma ChildOk(io: NumberIO, v: Json, i: nat)
    requires (v.Array? || v.Object?) && i < Count(v) && WellFormed(v) && NumbersExact(io, v)
    ensures var child := if v.Array? then v.items[i] else v.members[i].value;
            WellFormed(child) && NumbersExact(io, child) && child < v
    ensures v.Object? ==> NulFree(v.members[i].name) && Child(v, i) == v.members[i].value
    ensures v.Object? ==> Find(v.members[..i], v.members[i].name).None?
  {
    if v.Object? {
      FindAt(v.members, i);
    }
  }

  lemma HeadIs(t: string, c: char)
    requires t != "" && t[0] == c
    ensures Head(t) == c
  {
  }

  lemma ArrayEntry(io: NumberIO, v: Json, i: nat, level: nat, pretty: bool)
    requires v.Array? && i < Count(v)
    ensures Entry(io, v, i, level, pretty) == Text(io, v.items[i], level + 1, pretty)
  {
    assert "" + Text(io, v.items[i], level + 1, pretty) == Text(io, v.items[i], level + 1, pretty);
  }

  /** One round of parse_object_value's loop, on a name, a colon and a value. */
  lemma MembersRound(io: NumberIO, t: string, nesting: nat, ms: seq<Member>, key: string, t1: string)
    requires Head(t) != NUL && QuotedString(t) == Some((key, ":" + t1)) && Find(ms, key).None?
    ensures ParseValue(io, t1, nesting).None? ==> ParseMembers(io, t, nesting, ms).None?
    ensures ParseValue(io, t1, nesting).Some? ==>
              var (v, t2) := ParseValue(io, t1, nesting).value;
              var t3 := SkipSpaces(t2);
              ParseMembers(io, t, nesting, ms) ==
                if Head(t3) != ',' then FinishObject(t3, ms + [Member(key, v)])
                else ParseMembers(io, SkipSpaces(t3[1..]), nesting, ms + [Member(key, v)])
  {
    hide ParseValue, SkipSpaces, QuotedString, Find, FinishObject;
    KeyRead(t, key, t1);
    hide KeyAt;
  }

  lemma KeyRead(t: string, key: string, t1: string)
    requires QuotedString(t) == Some((key, ":" + t1))
    ensures KeyAt(t) == Some((key, t1))
  {
    hide QuotedString;
    NoSpacesSkipped(":" + t1);
    assert (":" + t1)[1..] == t1;
  }

  /** The space the pretty form writes after a colon does not matter. */
  lemma ValueAfterSpace(io: NumberIO, pretty: bool, t: string, nesting: nat)
    ensures ParseValue(io, When(pretty, " ") + t, nesting) == ParseValue(io, t, nesting)
  {
    hide *;
    OneSpaceIsSpaces(pretty);
    SpacesSkipped(When(pretty, " "), t);
    ValueBySkipped(io, When(pretty, " ") + t, t, nesting);
  }

  lemma OneSpaceIsSpaces(pretty: bool)
    ensures AllSpaces(When(pretty, " "))
  {
  }

  lemma ValueBySkipped(io: NumberIO, t: string, u: string, nesting: nat)
    requires SkipSpaces(t) == SkipSpaces(u)
    ensures ParseValue(io, t, nesting) == ParseValue(io, u, nesting)
  {
    hide SkipSpaces, ParseObject, ParseArray, ParseScalar, Head;
  }

  /** An object's entry is the literal of its name, a colon, and the text of its value. */
  lemma ObjectEntryRead(io: NumberIO, v: Json, i: nat, level: nat, pretty: bool, rest: string)
    requires v.Object? && i < Count(v) && NulFree(v.members[i].name)
    ensures QuotedString(Entry(io, v, i, level, pretty) + rest)
         == Some((v.members[i].name,
                  ":" + (When(pretty, " ") + (Text(io, Child(v, i), level + 1, pretty) + rest))))
  {
    hide Text, QuotedString, LiteralText;
    var key, space := v.members[i].name, When(pretty, " ");
    var value := Text(io, Child(v, i), level + 1, pretty);
    var after := ":" + (space + (value + rest));
    assert Entry(io, v, i, level, pretty) + rest == LiteralText(key) + after;
    LiteralReadBack(key, after);
  }

  lemma ObjectClosed(ms: seq<Member>, post: string)
    requires ms != []
    ensures Head(['}'] + post) != ',' && FinishObject(['}'] + post, ms) == Some((Object(ms), post))
  {
    NoSpacesSkipped(['}'] + post);
    assert (['}'] + post)[1..] == post;
  }

  /** What the round at member i makes of the loop, given what reading its value's text gives. */
  lemma MemberRound(io: NumberIO, v: Json, i: nat, level: nat, pretty: bool, post: string, nesting: nat)
    requires WellFormed(v) && NumbersExact(io, v) && v.Object? && i < Count(v)
    requires var rest := Rest(io, v, i, level, pretty, Close('}', level, pretty, post));
             ParseValue(io, Text(io, v.members[i].value, level + 1, pretty) + rest, nesting)
             == Outcome(Within(v.members[i].value, MAX_NESTING - nesting), v.members[i].value, rest)
    ensures var close := Close('}', level, pretty, post);
            var r := ParseMembers(io, SkipSpaces(Children(io, v, i, level, pretty) + close), nesting, v.members[..i]);
            if !Within(v.members[i].value, MAX_NESTING - nesting) then r.None?
            else if i == Count(v) - 1 then r == Some((v, post))
            else
              var t := SkipSpaces(Children(io, v, i + 1, level, pretty) + close);
              r == ParseMembers(io, t, nesting, v.members[..i + 1])
  {
    hide *;
    CountIs(v);
    var close := Close('}', level, pretty, post);
    var m, rest := v.members[i], Rest(io, v, i, level, pretty, close);
    var t := SkipSpaces(Children(io, v, i, level, pretty) + close);
    var valueText := Text(io, m.value, level + 1, pretty) + rest;
    ChildOk(io, v, i);
    ChildReached(io, v, i, level, pretty, close);
    RestReached(io, v, i, level, pretty, '}', post);
    ObjectEntryRead(io, v, i, level, pretty, rest);
    MembersRound(io, t, nesting, v.members[..i], m.name, When(pretty, " ") + valueText);
    ValueAfterSpace(io, pretty, valueText, nesting);
    OutcomeIs(Within(m.value, MAX_NESTING - nesting), m.value, rest);
    TakeOneMore(v.members, i);
    if i < Count(v) - 1 {
      HeadIs(rest, ',');
    } else {
      ObjectClosed(v.members, post);
    }
  }

  lemma {:induction false} MembersReadBack(io: NumberIO, v: Json, i: nat, level: nat, pretty: bool, post: string,
                                           nesting: nat)
    requires WellFormed(v) && NumbersExact(io, v) && v.Object? && i < Count(v)
    ensures var t := Children(io, v, i, level, pretty) + Close('}', level, pretty, post);
            ParseMembers(io, SkipSpaces(t), nesting, v.members[..i]) ==
            Outcome(ChildrenWithin(v, i, MAX_NESTING - nesting), v, post)
    decreases v, Count(v) - i, 0
  {
    hide *;
    CountIs(v);
    var close := Close('}', level, pretty, post);
    ChildOk(io, v, i);
    RestReached(io, v, i, level, pretty, '}', post);
    ValueReadBack(io, v.members[i].value, level + 1, pretty, Rest(io, v, i, level, pretty, close), nesting);
    MemberRound(io, v, i, level, pretty, post, nesting);
    ChildrenWithinFrom(v, i, MAX_NESTING - nesting);
    OutcomeIs(ChildrenWithin(v, i, MAX_NESTING - nesting), v, post);
    if Within(v.members[i].value, MAX_NESTING - nesting) && i < Count(v) - 1 {
      MembersReadBack(io, v, i + 1, level, pretty, post, nesting);
      OutcomeIs(ChildrenWithin(v, i + 1, MAX_NESTING - nesting), v, post);
    }
  }

  /** json_parse_string on the serialized text of a value: the value back, unless it is too deep. */
  lemma TextReadBack(io: NumberIO, v: Json, pretty: bool)
    requires WellFormed(v) && NumbersExact(io, v)
    ensures ParseText(io, Text(io, v, 0, pretty)) == if Within(v, MAX_NESTING) then Some(v) else None
  {
    hide Text, ParseValue, Within, WellFormed, NumbersExact;
    var t := Text(io, v, 0, pretty);
    TextStarts(io, v, 0, pretty);
    ValueReadBack(io, v, 0, pretty, "", 0);
    assert t + "" == t;
  }

  /** The trees the parser can produce: the well-formed ones that nest at most 2048 deep. */
  lemma ParserRange(io: NumberIO, v: Json)
    requires NumbersExact(io, v)
    ensures (exists t :: ParseText(io, t) == Some(v)) <==> WellFormed(v) && Within(v, MAX_NESTING)
  {
    if t :| ParseText(io, t) == Some(v) {
      AcceptedText(io, t);
    }
    if WellFormed(v) && Within(v, MAX_NESTING) {
      TextReadBack(io, v, false);
    }
  }
}

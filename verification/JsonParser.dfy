/**
 The recursive-descent parser of parson.c. Each parsing function maps the text at the cursor to the
 value read and the text after it.
 */
module JsonParser {
  import opened Options
  import opened CString
  import opened JsonStrings
  import opened JsonTree

  const MAX_NESTING := 2048

  /**
   The C library's number conversions. `format` is `sprintf` with the format "%1.17g". `scan` is
   `strtod`: the number at the head of a text and how many characters it takes, or None where it
   sets `errno` or its result is not finite.
   */
  datatype NumberIO = NumberIO(format: real -> string, scan: string -> Option<(real, nat)>)

  function IsDecimal(s: string): bool {
    if |s| > 1 && s[0] == '0' && s[1] != '.' then false
    else if |s| > 2 && s[0] == '-' && s[1] == '0' && s[2] != '.' then false
    else forall k :: 0 <= k < |s| ==> s[k] != 'x' && s[k] != 'X'
  }

  type Parsed = Option<(Json, string)>

  function ParseNumber(io: NumberIO, t: string): (r: Parsed)
    ensures r.Some? ==> |r.value.1| <= |t|
  {
    match io.scan(t)
    case None => None
    case Some((n, len)) =>
      if len <= |t| && IsDecimal(t[..len]) then Some((Number(n), t[len..])) else None
  }

  function ParseBoolean(t: string): (r: Parsed)
    ensures r.Some? ==> |r.value.1| <= |t|
  {
    if "true" <= t then Some((Boolean(true), t[4..]))
    else if "false" <= t then Some((Boolean(false), t[5..]))
    else None
  }

  function ParseNull(t: string): (r: Parsed)
    ensures r.Some? ==> |r.value.1| <= |t|
  {
    if "null" <= t then Some((Null, t[4..])) else None
  }

  function ParseString(t: string): (r: Parsed)
    ensures r.Some? ==> |r.value.1| <= |t|
  {
    match QuotedString(t)
    case None => None
    case Some((s, rest)) => Some((String(s), rest))
  }

  predicate StartsNumber(c: char) {
    c == '-' || '0' <= c <= '9'
  }

  /** The cases of parse_value that do not recurse. */
  function ParseScalar(io: NumberIO, t: string): (r: Parsed)
    ensures r.Some? ==> |r.value.1| <= |t|
    ensures r.Some? ==> WellFormed(r.value.0) && !r.value.0.Array? && !r.value.0.Object?
  {
    var c := Head(t);
    if c == '"' then ParseString(t)
    else if c == 'f' || c == 't' then ParseBoolean(t)
    else if StartsNumber(c) then ParseNumber(io, t)
    else if c == 'n' then ParseNull(t)
    else None
  }

  function ParseValue(io: NumberIO, t: string, nesting: nat): (r: Parsed)
    ensures r.Some? ==> |r.value.1| <= |t|
    decreases |t|, 2
  {
    if nesting > MAX_NESTING then None
    else
      var u := SkipSpaces(t);
      var c := Head(u);
      if c == '{' then ParseObject(io, u, nesting + 1)
      else if c == '[' then ParseArray(io, u, nesting + 1)
      else ParseScalar(io, u)
  }

  function ParseArray(io: NumberIO, t: string, nesting: nat): (r: Parsed)
    requires Head(t) == '['
    ensures r.Some? ==> |r.value.1| <= |t|
    decreases |t|, 1
  {
    var u := SkipSpaces(t[1..]);
    if Head(u) == ']' then Some((Array([]), u[1..]))
    else ParseItems(io, u, nesting, [])
  }

  /** The loop of parse_array_value, with the items read so far. */
  function ParseItems(io: NumberIO, t: string, nesting: nat, items: seq<Json>): (r: Parsed)
    ensures r.Some? ==> |r.value.1| <= |t|
    decreases |t|, 3
  {
    if Head(t) == NUL then FinishArray(t, items)
    else
      match ParseValue(io, t, nesting)
      case None => None
      case Some((v, t1)) =>
        var t2 := SkipSpaces(t1);
        if Head(t2) != ',' then FinishArray(t2, items + [v])
        else ParseItems(io, SkipSpaces(t2[1..]), nesting, items + [v])
  }

  function FinishArray(t: string, items: seq<Json>): (r: Parsed)
    ensures r.Some? ==> |r.value.1| <= |t|
  {
    var u := SkipSpaces(t);
    if Head(u) != ']' || |items| == 0 then None else Some((Array(items), u[1..]))
  }

  function ParseObject(io: NumberIO, t: string, nesting: nat): (r: Parsed)
    requires Head(t) == '{'
    ensures r.Some? ==> |r.value.1| <= |t|
    decreases |t|, 1
  {
    var u := SkipSpaces(t[1..]);
    if Head(u) == '}' then Some((Object([]), u[1..]))
    else ParseMembers(io, u, nesting, [])
  }

  /** The loop of parse_object_value, with the members read so far. */
  function ParseMembers(io: NumberIO, t: string, nesting: nat, ms: seq<Member>): (r: Parsed)
    ensures r.Some? ==> |r.value.1| <= |t|
    decreases |t|, 3
  {
    if Head(t) == NUL then FinishObject(t, ms)
    else
      match KeyAt(t)
      case None => None
      case Some((key, t1)) =>
        match ParseValue(io, t1, nesting)
        case None => None
        case Some((v, t2)) =>
          if Find(ms, key).Some? then None
          else
            var t3 := SkipSpaces(t2);
            if Head(t3) != ',' then FinishObject(t3, ms + [Member(key, v)])
            else ParseMembers(io, SkipSpaces(t3[1..]), nesting, ms + [Member(key, v)])
  }

  /** A member's name and the text after its colon. */
  function KeyAt(t: string): (r: Option<(string, string)>)
    ensures r.Some? ==> |r.value.1| < |t|
  {
    match QuotedString(t)
    case None => None
    case Some((key, t1)) =>
      var t2 := SkipSpaces(t1);
      if Head(t2) != ':' then None else Some((key, t2[1..]))
  }

  function FinishObject(t: string, ms: seq<Member>): (r: Parsed)
    ensures r.Some? ==> |r.value.1| <= |t|
  {
    var u := SkipSpaces(t);
    if Head(u) != '}' || |ms| == 0 then None else Some((Object(ms), u[1..]))
  }

  const BYTE_ORDER_MARK: string := [0xEF as char, 0xBB as char, 0xBF as char]

  /** json_parse_string. */
  function ParseText(io: NumberIO, t: string): Option<Json> {
    var u := if BYTE_ORDER_MARK <= t then t[3..] else t;
    match ParseValue(io, u, 0)
    case None => None
    case Some((v, _)) => Some(v)
  }

  // ----- every tree the parser accepts -----

  lemma {:induction false} AcceptedValue(io: NumberIO, t: string, nesting: nat)
    requires ParseValue(io, t, nesting).Some?
    ensures var v := ParseValue(io, t, nesting).value.0;
            WellFormed(v) && Within(v, MAX_NESTING - nesting)
    decreases |t|, 2
  {
    hide SkipSpaces, ParseScalar, ParseItems, ParseMembers;
    var u := SkipSpaces(t);
    if Head(u) == '{' {
      var w := SkipSpaces(u[1..]);
      if Head(w) != '}' {
        AcceptedMembers(io, w, nesting + 1, []);
      }
    } else if Head(u) == '[' {
      var w := SkipSpaces(u[1..]);
      if Head(w) != ']' {
        AcceptedItems(io, w, nesting + 1, []);
      }
    }
  }

  lemma {:induction false} AcceptedItems(io: NumberIO, t: string, nesting: nat, items: seq<Json>)
    requires ParseItems(io, t, nesting, items).Some? && nesting <= MAX_NESTING + 1
    requires WellFormed(Array(items)) && Within(Array(items), MAX_NESTING - nesting + 1)
    ensures var v := ParseItems(io, t, nesting, items).value.0;
            WellFormed(v) && Within(v, MAX_NESTING - nesting + 1)
    decreases |t|, 3
  {
    hide SkipSpaces, ParseValue;
    if Head(t) != NUL {
      AcceptedValue(io, t, nesting);
      var (v, t1) := ParseValue(io, t, nesting).value;
      var t2 := SkipSpaces(t1);
      if Head(t2) == ',' {
        AcceptedItems(io, SkipSpaces(t2[1..]), nesting, items + [v]);
      }
    }
  }

  /** One turn of the loop over members that goes well. */
  lemma MembersStep(io: NumberIO, t: string, nesting: nat, ms: seq<Member>)
    requires ParseMembers(io, t, nesting, ms).Some?
    ensures Head(t) == NUL ==> ParseMembers(io, t, nesting, ms) == FinishObject(t, ms)
    ensures Head(t) != NUL ==>
              && KeyAt(t).Some? && Find(ms, KeyAt(t).value.0).None?
              && ParseValue(io, KeyAt(t).value.1, nesting).Some?
              && var (v, t2) := ParseValue(io, KeyAt(t).value.1, nesting).value;
                 var t3, more := SkipSpaces(t2), ms + [Member(KeyAt(t).value.0, v)];
                 if Head(t3) != ',' then ParseMembers(io, t, nesting, ms) == FinishObject(t3, more)
                 else
                   && t3 != ""
                   && ParseMembers(io, t, nesting, ms) == ParseMembers(io, SkipSpaces(t3[1..]), nesting, more)
  {
    hide ParseValue, SkipSpaces, KeyAt, FinishObject, Find;
  }

  lemma KeyIsNulFree(t: string)
    requires KeyAt(t).Some?
    ensures NulFree(KeyAt(t).value.0)
  {
    hide SkipSpaces, SkipQuotes;
  }

  lemma Finished(t: string, ms: seq<Member>)
    ensures FinishObject(t, ms).Some? ==> FinishObject(t, ms).value.0 == Object(ms)
  {
    hide SkipSpaces;
  }

  lemma {:induction false} AcceptedMembers(io: NumberIO, t: string, nesting: nat, ms: seq<Member>)
    requires ParseMembers(io, t, nesting, ms).Some? && nesting <= MAX_NESTING + 1
    requires WellFormed(Object(ms)) && Within(Object(ms), MAX_NESTING - nesting + 1)
    ensures var v := ParseMembers(io, t, nesting, ms).value.0;
            WellFormed(v) && Within(v, MAX_NESTING - nesting + 1)
    decreases |t|, 3
  {
    hide *;
    MembersStep(io, t, nesting, ms);
    if Head(t) == NUL {
      Finished(t, ms);
    } else {
      var (key, t1) := KeyAt(t).value;
      KeyIsNulFree(t);
      AcceptedValue(io, t1, nesting);
      var (v, t2) := ParseValue(io, t1, nesting).value;
      var t3, more := SkipSpaces(t2), ms + [Member(key, v)];
      MemberAdded(ms, Member(key, v), MAX_NESTING - nesting);
      if Head(t3) == ',' {
        AcceptedMembers(io, SkipSpaces(t3[1..]), nesting, more);
      } else {
        Finished(t3, more);
      }
    }
  }

  /** A member with a new name keeps an object well formed, whatever its depth bound. */
  lemma MemberAdded(ms: seq<Member>, m: Member, depth: int)
    requires WellFormed(Object(ms)) && Within(Object(ms), depth + 1)
    requires Find(ms, m.name).None? && NulFree(m.name) && WellFormed(m.value) && Within(m.value, depth)
    ensures WellFormed(Object(ms + [m])) && Within(Object(ms + [m]), depth + 1)
  {
    hide Find;
  }

  /** Every accepted text yields distinct names, C strings, and nesting of at most 2048. */
  lemma AcceptedText(io: NumberIO, t: string)
    requires ParseText(io, t).Some?
    ensures WellFormed(ParseText(io, t).value) && Within(ParseText(io, t).value, MAX_NESTING)
  {
    hide ParseValue, WellFormed, Within;
    AcceptedValue(io, if BYTE_ORDER_MARK <= t then t[3..] else t, 0);
  }

  // ----- the loops; a cursor is the text from the pointer on -----

  method ReadValue(io: NumberIO, start: string, nesting: nat) returns (r: Parsed)
    ensures r == ParseValue(io, start, nesting)
    decreases |start|, 2
  {
    hide ParseScalar, ParseItems, ParseMembers;
    if nesting > MAX_NESTING {
      return None;
    }
    var cursor := SkipWhitespaces(start);
    if Head(cursor) == '{' {
      r := ReadObject(io, cursor, nesting + 1);
    } else if Head(cursor) == '[' {
      r := ReadArray(io, cursor, nesting + 1);
    } else {
      r := ReadScalar(io, cursor);
    }
  }

  method ReadScalar(io: NumberIO, cursor: string) returns (r: Parsed)
    ensures r == ParseScalar(io, cursor)
  {
    var c := Head(cursor);
    if c == '"' {
      var s := GetQuotedString(cursor);
      r := if s.None? then None else Some((String(s.value.0), s.value.1));
    } else if c == 'f' || c == 't' {
      r := ParseBoolean(cursor);
    } else if StartsNumber(c) {
      r := ParseNumber(io, cursor);
    } else if c == 'n' {
      r := ParseNull(cursor);
    } else {
      r := None;
    }
  }

  method ReadArray(io: NumberIO, start: string, nesting: nat) returns (r: Parsed)
    requires Head(start) == '['
    ensures r == ParseArray(io, start, nesting)
    decreases |start|, 1
  {
    hide ParseValue, SkipSpaces;
    var items: seq<Json> := [];
    var cursor := SkipWhitespaces(start[1..]);
    if Head(cursor) == ']' {
      return Some((Array([]), cursor[1..]));
    }
    while Head(cursor) != NUL
      invariant |cursor| < |start|
      invariant ParseItems(io, cursor, nesting, items) == ParseArray(io, start, nesting)
      decreases |cursor|
    {
      var item := ReadValue(io, cursor, nesting);
      if item.None? {
        return None;
      }
      items := items + [item.value.0];
      cursor := SkipWhitespaces(item.value.1);
      if Head(cursor) != ',' {
        r := CloseArray(cursor, items);
        return;
      }
      cursor := SkipWhitespaces(cursor[1..]);
    }
    r := CloseArray(cursor, items);
  }

  method CloseArray(start: string, items: seq<Json>) returns (r: Parsed)
    ensures r == FinishArray(start, items)
  {
    var cursor := SkipWhitespaces(start);
    if Head(cursor) != ']' || |items| == 0 {
      return None;
    }
    r := Some((Array(items), cursor[1..]));
  }

  method ReadObject(io: NumberIO, start: string, nesting: nat) returns (r: Parsed)
    requires Head(start) == '{'
    ensures r == ParseObject(io, start, nesting)
    decreases |start|, 1
  {
    hide ParseValue, SkipSpaces, QuotedString, Find;
    var members: seq<Member> := [];
    var cursor := SkipWhitespaces(start[1..]);
    if Head(cursor) == '}' {
      return Some((Object([]), cursor[1..]));
    }
    while Head(cursor) != NUL
      invariant |cursor| < |start|
      invariant ParseMembers(io, cursor, nesting, members) == ParseObject(io, start, nesting)
      decreases |cursor|
    {
      var key := GetQuotedString(cursor);
      if key.None? {
        return None;
      }
      cursor := SkipWhitespaces(key.value.1);
      if Head(cursor) != ':' {
        return None;
      }
      var value := ReadValue(io, cursor[1..], nesting);
      if value.None? || Find(members, key.value.0).Some? {
        return None;
      }
      members := members + [Member(key.value.0, value.value.0)];
      cursor := SkipWhitespaces(value.value.1);
      if Head(cursor) != ',' {
        r := CloseObject(cursor, members);
        return;
      }
      cursor := SkipWhitespaces(cursor[1..]);
    }
    r := CloseObject(cursor, members);
  }

  method CloseObject(start: string, members: seq<Member>) returns (r: Parsed)
    ensures r == FinishObject(start, members)
  {
    var cursor := SkipWhitespaces(start);
    if Head(cursor) != '}' || |members| == 0 {
      return None;
    }
    r := Some((Object(members), cursor[1..]));
  }
}

/**
 The serializer of parson.c as it runs: every writer appends at a position of a caller's buffer, or
 only counts when there is no buffer. `Text` says what the bytes are.
 */
module JsonWriter {
  import opened CString
  import opened JsonStrings
  import opened JsonTree
  import opened JsonParser
  import opened JsonSerializer

  /**
   `after` is `before` with `s` written at `start`. The byte after `s` may hold a terminator, and
   nothing else has changed.
   */
  ghost predicate Emitted(before: seq<char>, after: seq<char>, start: nat, s: string) {
    && |after| == |before| && start + |s| < |before|
    && after[..start] == before[..start]
    && after[start..start + |s|] == s
    && after[start + |s| + 1..] == before[start + |s| + 1..]
  }

  /** The buffer, if there is one, holds `s` at `start` over what it held before. */
  ghost predicate Holds(buf: array?<char>, before: seq<char>, start: nat, s: string)
    reads buf
  {
    buf != null ==> Emitted(before, buf[..], start, s)
  }

  /** There is room for `s` and its terminator. */
  ghost predicate Fits(buf: array?<char>, start: nat, s: string) {
    buf != null ==> start + |s| + 1 <= buf.Length
  }

  ghost predicate Terminated(buf: array?<char>, end: nat)
    reads buf
  {
    buf != null ==> end < buf.Length && buf[end] == NUL
  }

  lemma EmittedMore(before: seq<char>, middle: seq<char>, after: seq<char>, start: nat, s: string, more: string)
    requires Emitted(before, middle, start, s)
    requires Emitted(middle, after, start + |s|, more)
    ensures Emitted(before, after, start, s + more)
  {
    var m := start + |s|;
    assert after[..start] == after[..m][..start] == middle[..m][..start] == before[..start];
    assert after[start..m] == after[..m][start..] == middle[..m][start..] == s;
    assert after[start..m + |more|] == after[start..m] + after[m..m + |more|];
    var e := m + |more| + 1;
    assert after[e..] == middle[e..] == middle[m + 1..][|more|..] == before[m + 1..][|more|..] == before[e..];
  }

  /** append_string, with `total` bytes written so far. */
  method Append(buf: array?<char>, start: nat, total: nat, s: string,
                ghost before: seq<char>, ghost soFar: string) returns (written: nat)
    requires total == |soFar| && Holds(buf, before, start, soFar) && Fits(buf, start, soFar + s)
    modifies buf
    ensures written == |soFar + s| && Holds(buf, before, start, soFar + s)
    ensures Terminated(buf, start + written)
  {
    written := total + |s|;
    if buf != null {
      ghost var middle := buf[..];
      forall k | 0 <= k < |s| {
        buf[start + total + k] := s[k];
      }
      buf[start + written] := NUL;
      assert Emitted(middle, buf[..], start + total, s);
      EmittedMore(before, middle, buf[..], start, soFar, s);
    }
  }

  /** The default case of json_serialize_string: one byte and no terminator. */
  method AppendByte(buf: array?<char>, start: nat, total: nat, c: char,
                    ghost before: seq<char>, ghost soFar: string) returns (written: nat)
    requires total == |soFar| && Holds(buf, before, start, soFar) && Fits(buf, start, soFar + [c])
    modifies buf
    ensures written == |soFar + [c]| && Holds(buf, before, start, soFar + [c])
  {
    written := total + 1;
    if buf != null {
      ghost var middle := buf[..];
      buf[start + total] := c;
      assert Emitted(middle, buf[..], start + total, [c]);
      EmittedMore(before, middle, buf[..], start, soFar, [c]);
    }
  }

  lemma {:induction false} IndentSnoc(level: nat)
    ensures Indent(level + 1) == Indent(level) + "    "
  {
    if level > 0 {
      IndentSnoc(level - 1);
      assert "    " + (Indent(level - 1) + "    ") == ("    " + Indent(level - 1)) + "    ";
    } else {
      assert Indent(0) + "    " == "    " + Indent(0);
    }
  }

  lemma {:induction false} IndentLength(level: nat)
    ensures |Indent(level)| == 4 * level
  {
    if level > 0 {
      IndentLength(level - 1);
    }
  }

  method AppendIndent(buf: array?<char>, start: nat, total: nat, level: nat,
                      ghost before: seq<char>, ghost soFar: string) returns (written: nat)
    requires total == |soFar| && Holds(buf, before, start, soFar) && Fits(buf, start, soFar + Indent(level))
    modifies buf
    ensures written == |soFar + Indent(level)| && Holds(buf, before, start, soFar + Indent(level))
  {
    hide Indent, Holds;
    written := total;
    IndentLength(level);
    IndentLength(0);
    assert soFar + Indent(0) == soFar;
    for i := 0 to level
      invariant written == |soFar + Indent(i)| && Holds(buf, before, start, soFar + Indent(i))
    {
      IndentLength(i);
      IndentSnoc(i);
      assert (soFar + Indent(i)) + "    " == soFar + Indent(i + 1);
      written := Append(buf, start, written, "    ", before, soFar + Indent(i));
    }
  }

  lemma {:induction false} EscapedSnoc(s: string, i: nat)
    requires i < |s|
    ensures Escaped(s[..i + 1]) == Escaped(s[..i]) + EscapeChar(s[i])
    ensures Escaped(s) == Escaped(s[..i]) + EscapeChar(s[i]) + Escaped(s[i + 1..])
  {
    hide EscapeChar;
    if i == 0 {
      assert s[..1][1..] == "";
      assert EscapeChar(s[0]) + "" == "" + EscapeChar(s[0]);
      assert s[..0] == "";
    } else {
      EscapedSnoc(s[1..], i - 1);
      assert s[..i + 1][1..] == s[1..][..i];
      assert s[..i][1..] == s[1..][..i - 1];
      assert s[1..][i - 1 + 1..] == s[i + 1..];
      assert s[1..][i - 1] == s[i];
      var a, b, c, d := EscapeChar(s[0]), Escaped(s[1..][..i - 1]), EscapeChar(s[i]), Escaped(s[i + 1..]);
      assert a + (b + c) == (a + b) + c && a + (b + c + d) == (a + b) + c + d;
    }
  }

  /** json_serialize_string. */
  method AppendLiteral(buf: array?<char>, start: nat, total: nat, s: string,
                       ghost before: seq<char>, ghost soFar: string) returns (written: nat)
    requires total == |soFar| && Holds(buf, before, start, soFar) && Fits(buf, start, soFar + LiteralText(s))
    modifies buf
    ensures written == |soFar + LiteralText(s)| && Holds(buf, before, start, soFar + LiteralText(s))
    ensures Terminated(buf, start + written)
  {
    hide Holds, EscapeChar;
    ghost var done := soFar + "\"";
    written := Append(buf, start, total, "\"", before, soFar);
    assert s[..0] == "" && done + Escaped("") == done;
    for i := 0 to |s|
      invariant written == |done + Escaped(s[..i])| && Holds(buf, before, start, done + Escaped(s[..i]))
    {
      EscapedSnoc(s, i);
      assert (done + Escaped(s[..i])) + EscapeChar(s[i]) == done + Escaped(s[..i + 1]);
      if EscapeChar(s[i]) == [s[i]] {
        written := AppendByte(buf, start, written, s[i], before, done + Escaped(s[..i]));
      } else {
        written := Append(buf, start, written, EscapeChar(s[i]), before, done + Escaped(s[..i]));
      }
    }
    assert s[..|s|] == s && (done + Escaped(s)) + "\"" == soFar + LiteralText(s);
    written := Append(buf, start, written, "\"", before, done + Escaped(s));
  }

  // ----- json_serialize_to_buffer_r -----

  /** The text a container writes after its last child. */
  function Tail(v: Json, level: nat, pretty: bool): string
    requires v.Array? || v.Object?
  {
    When(pretty && Count(v) > 0, Indent(level)) + (if v.Array? then "]" else "}")
  }

  /** `head` is the text of a container up to its child i. */
  ghost predicate UpToChild(io: NumberIO, v: Json, i: nat, level: nat, pretty: bool, head: string)
    requires v.Array? || v.Object?
  {
    && i <= Count(v)
    && head + Children(io, v, i, level, pretty) + Tail(v, level, pretty) == Text(io, v, level, pretty)
  }

  method AppendValue(io: NumberIO, v: Json, buf: array?<char>, start: nat, total: nat, level: nat, pretty: bool,
                     ghost before: seq<char>, ghost soFar: string) returns (written: nat)
    requires total == |soFar| && Holds(buf, before, start, soFar)
    requires Fits(buf, start, soFar + Text(io, v, level, pretty))
    modifies buf
    ensures written == |soFar + Text(io, v, level, pretty)|
    ensures Holds(buf, before, start, soFar + Text(io, v, level, pretty))
    ensures Terminated(buf, start + written)
    decreases v, 3
  {
    hide Holds, Terminated;
    match v
    case Null => written := Append(buf, start, total, "null", before, soFar);
    case Boolean(b) => written := Append(buf, start, total, if b then "true" else "false", before, soFar);
    case Number(n) => written := Append(buf, start, total, io.format(n), before, soFar);
    case String(s) => written := AppendLiteral(buf, start, total, s, before, soFar);
    case _ => written := AppendContainer(io, v, buf, start, total, level, pretty, before, soFar);
  }

  method AppendContainer(io: NumberIO, v: Json, buf: array?<char>, start: nat, total: nat, level: nat, pretty: bool,
                         ghost before: seq<char>, ghost soFar: string) returns (written: nat)
    requires v.Array? || v.Object?
    requires total == |soFar| && Holds(buf, before, start, soFar)
    requires Fits(buf, start, soFar + Text(io, v, level, pretty))
    modifies buf
    ensures written == |soFar + Text(io, v, level, pretty)|
    ensures Holds(buf, before, start, soFar + Text(io, v, level, pretty))
    ensures Terminated(buf, start + written)
    decreases v, 2
  {
    hide Holds, Terminated, Text, Children, Indent, ChildText, UpToChild;
    var open := if v.Array? then "[" else "{";
    var close := if v.Array? then "]" else "}";
    ghost var head := open;
    ContainerStarts(io, v, level, pretty);
    written := Append(buf, start, total, open, before, soFar);
    if Count(v) > 0 && pretty {
      written := Append(buf, start, written, "\n", before, soFar + head);
      assert (soFar + head) + "\n" == soFar + (head + "\n");
      head := head + "\n";
    }
    for i := 0 to Count(v)
      invariant written == |soFar + head| && Holds(buf, before, start, soFar + head)
      invariant UpToChild(io, v, i, level, pretty, head)
    {
      ChildWritten(io, v, i, level, pretty, head);
      written := AppendChild(io, v, i, buf, start, written, level, pretty, before, soFar + head);
      assert (soFar + head) + ChildText(io, v, i, level, pretty) == soFar + (head + ChildText(io, v, i, level, pretty));
      head := head + ChildText(io, v, i, level, pretty);
    }
    ContainerEnds(io, v, level, pretty, head);
    if Count(v) > 0 && pretty {
      written := AppendIndent(buf, start, written, level, before, soFar + head);
      assert (soFar + head) + Indent(level) == soFar + (head + Indent(level));
      head := head + Indent(level);
    }
    assert (soFar + head) + close == soFar + (head + close);
    written := Append(buf, start, written, close, before, soFar + head);
  }

  /** What one round of the container loop writes. */
  function ChildText(io: NumberIO, v: Json, i: nat, level: nat, pretty: bool): string
    requires (v.Array? || v.Object?) && i < Count(v)
  {
    When(pretty, Indent(level + 1)) + Entry(io, v, i, level, pretty) + When(i < Count(v) - 1, ",") + When(pretty, "\n")
  }

  lemma ContainerStarts(io: NumberIO, v: Json, level: nat, pretty: bool)
    requires v.Array? || v.Object?
    ensures var open := if v.Array? then "[" else "{";
            var head := if Count(v) > 0 && pretty then open + "\n" else open;
            UpToChild(io, v, 0, level, pretty, head) && |head| <= |Text(io, v, level, pretty)|
  {
    hide Children, Indent, Text, Count;
    var open, close := if v.Array? then "[" else "{", if v.Array? then "]" else "}";
    var head := if Count(v) > 0 && pretty then open + "\n" else open;
    TextOpened(io, v, level, pretty);
    var children, tail := Children(io, v, 0, level, pretty), Tail(v, level, pretty);
    assert head + children + tail == open + Body(io, v, level, pretty) + close;
  }

  lemma TextOpened(io: NumberIO, v: Json, level: nat, pretty: bool)
    requires v.Array? || v.Object?
    ensures Text(io, v, level, pretty) ==
            (if v.Array? then "[" else "{") + Body(io, v, level, pretty) + (if v.Array? then "]" else "}")
  {
    hide Body;
  }

  lemma ChildWritten(io: NumberIO, v: Json, i: nat, level: nat, pretty: bool, head: string)
    requires (v.Array? || v.Object?) && i < Count(v) && UpToChild(io, v, i, level, pretty, head)
    ensures UpToChild(io, v, i + 1, level, pretty, head + ChildText(io, v, i, level, pretty))
    ensures |head + ChildText(io, v, i, level, pretty)| <= |Text(io, v, level, pretty)|
  {
    hide *;
    hide Text, Tail, Count;
    var child, rest := ChildText(io, v, i, level, pretty), Children(io, v, i + 1, level, pretty);
    ChildFirst(io, v, i, level, pretty);
    UpToChildIs(io, v, i, level, pretty, head);
    UpToChildIs(io, v, i + 1, level, pretty, head + child);
    assert head + (child + rest) == head + child + rest;
  }

  lemma UpToChildIs(io: NumberIO, v: Json, i: nat, level: nat, pretty: bool, head: string)
    requires (v.Array? || v.Object?) && i <= Count(v)
    ensures UpToChild(io, v, i, level, pretty, head) <==>
            head + Children(io, v, i, level, pretty) + Tail(v, level, pretty) == Text(io, v, level, pretty)
  {
    hide Children, Tail, Text, Count;
  }

  lemma ChildFirst(io: NumberIO, v: Json, i: nat, level: nat, pretty: bool)
    requires (v.Array? || v.Object?) && i < Count(v)
    ensures Children(io, v, i, level, pretty) ==
            ChildText(io, v, i, level, pretty) + Children(io, v, i + 1, level, pretty)
  {
    hide Entry, When, Count;
  }

  lemma ContainerEnds(io: NumberIO, v: Json, level: nat, pretty: bool, head: string)
    requires (v.Array? || v.Object?) && UpToChild(io, v, Count(v), level, pretty, head)
    ensures var close := if v.Array? then "]" else "}";
            if Count(v) > 0 && pretty then head + Indent(level) + close == Text(io, v, level, pretty)
            else head + close == Text(io, v, level, pretty)
  {
    hide Text, Indent;
    var close := if v.Array? then "]" else "}";
    assert Children(io, v, Count(v), level, pretty) == "";
    assert head + "" + Tail(v, level, pretty) == head + Tail(v, level, pretty);
    if Count(v) > 0 && pretty {
      assert head + (Indent(level) + close) == head + Indent(level) + close;
    } else {
      assert "" + close == close;
    }
  }

  /** One round of the container loop: indentation, entry, separator, line end. */
  method AppendChild(io: NumberIO, v: Json, i: nat, buf: array?<char>, start: nat, total: nat, level: nat, pretty: bool,
                     ghost before: seq<char>, ghost soFar: string) returns (written: nat)
    requires (v.Array? || v.Object?) && i < Count(v)
    requires total == |soFar| && Holds(buf, before, start, soFar)
    requires Fits(buf, start, soFar + ChildText(io, v, i, level, pretty))
    modifies buf
    ensures written == |soFar + ChildText(io, v, i, level, pretty)|
    ensures Holds(buf, before, start, soFar + ChildText(io, v, i, level, pretty))
    decreases v, 1
  {
    hide Holds, Terminated, Text, Indent, Entry;
    ghost var a, b := When(pretty, Indent(level + 1)), Entry(io, v, i, level, pretty);
    ghost var c, d := When(i < Count(v) - 1, ","), When(pretty, "\n");
    assert soFar + ChildText(io, v, i, level, pretty) == soFar + a + b + c + d;
    written := total;
    assert soFar + "" == soFar;
    if pretty {
      written := AppendIndent(buf, start, written, level + 1, before, soFar);
    }
    written := AppendEntry(io, v, i, buf, start, written, level, pretty, before, soFar + a);
    assert (soFar + a + b) + "" == soFar + a + b;
    if i < Count(v) - 1 {
      written := Append(buf, start, written, ",", before, soFar + a + b);
    }
    assert (soFar + a + b + c) + "" == soFar + a + b + c;
    if pretty {
      written := Append(buf, start, written, "\n", before, soFar + a + b + c);
    }
  }

  /** A member's name and colon, then the value found under that name; or an item. */
  method AppendEntry(io: NumberIO, v: Json, i: nat, buf: array?<char>, start: nat, total: nat, level: nat, pretty: bool,
                     ghost before: seq<char>, ghost soFar: string) returns (written: nat)
    requires (v.Array? || v.Object?) && i < Count(v)
    requires total == |soFar| && Holds(buf, before, start, soFar)
    requires Fits(buf, start, soFar + Entry(io, v, i, level, pretty))
    modifies buf
    ensures written == |soFar + Entry(io, v, i, level, pretty)|
    ensures Holds(buf, before, start, soFar + Entry(io, v, i, level, pretty))
    decreases v, 0
  {
    hide Holds, Terminated, Text, LiteralText;
    written := total;
    ghost var done := soFar;
    ghost var value := Text(io, Child(v, i), level + 1, pretty);
    if v.Object? {
      ghost var key, space := LiteralText(v.members[i].name), When(pretty, " ");
      assert soFar + Entry(io, v, i, level, pretty) == soFar + key + ":" + space + value;
      written := AppendLiteral(buf, start, written, v.members[i].name, before, soFar);
      written := Append(buf, start, written, ":", before, soFar + key);
      assert (soFar + key + ":") + "" == soFar + key + ":";
      if pretty {
        written := Append(buf, start, written, " ", before, soFar + key + ":");
      }
      done := soFar + key + ":" + space;
    } else {
      assert soFar + Entry(io, v, i, level, pretty) == soFar + value;
    }
    written := AppendValue(io, Child(v, i), buf, start, written, level + 1, pretty, before, done);
  }

  // ----- the two passes -----

  /** json_serialization_size and its pretty form: the pass without a buffer. */
  method SerializationSize(io: NumberIO, v: Json, pretty: bool) returns (size: nat)
    ensures size == |Text(io, v, 0, pretty)| + 1
  {
    hide Text;
    assert "" + Text(io, v, 0, pretty) == Text(io, v, 0, pretty);
    var written := AppendValue(io, v, null, 0, 0, 0, pretty, [], "");
    size := written + 1;
  }

  /**
   json_serialize_to_buffer and its pretty form: succeeds exactly when the buffer has room for the
   text and its terminator, writes exactly those, and otherwise leaves the buffer alone.
   */
  method SerializeToBuffer(io: NumberIO, v: Json, pretty: bool, buf: array<char>) returns (ok: bool)
    modifies buf
    ensures ok <==> |Text(io, v, 0, pretty)| + 1 <= buf.Length
    ensures !ok ==> buf[..] == old(buf[..])
    ensures ok ==> var n := |Text(io, v, 0, pretty)|;
                   buf[..] == Text(io, v, 0, pretty) + [NUL] + old(buf[..])[n + 1..]
  {
    hide Text;
    var needed := SerializationSize(io, v, pretty);
    if buf.Length < needed {
      return false;
    }
    ghost var before := buf[..];
    ghost var text := Text(io, v, 0, pretty);
    assert "" + text == text;
    var written := AppendValue(io, v, buf, 0, 0, 0, pretty, before, "");
    assert Emitted(before, buf[..], 0, text);
    assert buf[..] == buf[..written] + [buf[written]] + buf[written + 1..];
    ok := true;
  }

  /** json_serialize_to_string and its pretty form: the text and its terminator fill the buffer. */
  method SerializeToString(io: NumberIO, v: Json, pretty: bool) returns (buf: array<char>)
    ensures fresh(buf) && buf[..] == Text(io, v, 0, pretty) + [NUL]
  {
    hide Text;
    var size := SerializationSize(io, v, pretty);
    buf := new char[size];
    ghost var before := buf[..];
    var ok := SerializeToBuffer(io, v, pretty, buf);
    assert before[size..] == [];
  }
}

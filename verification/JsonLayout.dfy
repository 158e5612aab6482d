/**
 The text the serializer writes, as a spelling of the grammar: a spelling of the same value, with no
 white space outside its literals when compact, and with line ends and indentation when pretty.
 */
module JsonLayout {
  import opened Options
  import opened CString
  import opened Alphabets
  import opened JsonTree
  import opened JsonParser
  import opened Z = JsonSerializer
  import opened L = JsonLiterals
  import opened JsonGrammar
  import S = JsonStrings
  import U = Utf8

  // ----- the layout -----

  /** A new line and four spaces a level, or nothing in a compact text. */
  function NewLine(level: nat, pretty: bool): string {
    if pretty then "\n" + seq(4 * level, _ => ' ') else ""
  }

  /**
   The one way a byte is written: by its short escape if there is one, as a code unit in lower case if
   it is another control character, and as itself otherwise.
   */
  ghost predicate PlainPiece(p: Piece) {
    match p
    case Raw(c) => c != '/'
    case Short(_) => true
    case Unit(hex, value) =>
      && value < 0x20 && value !in {0x08, 0x09, 0x0A, 0x0C, 0x0D}
      && forall k :: 0 <= k < |hex| ==> hex[k] in "0123456789abcdef"
    case Pair(_, _, _, _) => false
  }

  ghost predicate Plain(ps: seq<Piece>) {
    forall i :: 0 <= i < |ps| ==> PlainPiece(ps[i])
  }

  /**
   Each child on a line of its own, one level deeper, the closing bracket on a line at the level of the
   container, and one space after the colon of a name; or no white space at all. Nothing in between.
   */
  ghost predicate Shaped(x: Syntax, level: nat, pretty: bool)
    decreases x
  {
    match x
    case Literal(ps) => Plain(ps)
    case Brackets(gap, items) => gap == "" && ShapedItems(items, level, pretty)
    case Braces(gap, entries) => gap == "" && ShapedEntries(entries, level, pretty)
    case _ => true
  }

  ghost predicate ShapedItem(item: Item, before: string, last: bool, level: nat, pretty: bool)
    decreases item
  {
    && item.before == before && item.after == (if last then NewLine(level, pretty) else "")
    && Shaped(item.value, level + 1, pretty)
  }

  ghost predicate ShapedItems(items: seq<Item>, level: nat, pretty: bool)
    decreases items
  {
    items != [] ==>
      && ShapedItem(items[0], NewLine(level + 1, pretty), |items| == 1, level, pretty)
      && ShapedItems(items[1..], level, pretty)
  }

  ghost predicate ShapedEntries(entries: seq<Entry>, level: nat, pretty: bool)
    decreases entries
  {
    entries != [] ==>
      && entries[0].lead == NewLine(level + 1, pretty) && entries[0].gap == "" && Plain(entries[0].name)
      && ShapedItem(entries[0].item, if pretty then " " else "", |entries| == 1, level, pretty)
      && ShapedEntries(entries[1..], level, pretty)
  }

  // ----- literals -----

  /** How the serializer writes a character. */
  function PieceFor(c: char): Piece {
    match c
    case '"' => Short('"')
    case '\\' => Short('\\')
    case '/' => Short('/')
    case '\n' => Short('n')
    case '\r' => Short('r')
    case '\t' => Short('t')
    case _ =>
      if c as int == 0x08 then Short('b')
      else if c as int == 0x0C then Short('f')
      else if c as int < 0x20 then Unit("00" + [HexDigit(c as int / 16), HexDigit(c as int % 16)], c as int)
      else Raw(c)
  }

  lemma HexDigitWritten(d: nat)
    requires d < 16
    ensures Writes(HexDigit(d), d)
  {
    WritesIs(HexDigit(d), d);
  }

  lemma ControlSpelled(n: nat)
    requires n < 0x20
    ensures SpellsHex("00" + [HexDigit(n / 16), HexDigit(n % 16)], n)
  {
    hide Writes, HexDigit;
    HexDigitWritten(0);
    HexDigitWritten(n / 16);
    HexDigitWritten(n % 16);
    ZeroDigit();
    var hex := "00" + [HexDigit(n / 16), HexDigit(n % 16)];
    assert Writes(hex[0], 0) && Writes(hex[1], 0) && Writes(hex[2], n / 16) && Writes(hex[3], n % 16);
  }

  lemma ZeroDigit()
    ensures HexDigit(0) == '0'
  {
  }

  lemma PieceIs(c: char)
    requires c != NUL
    ensures var p := PieceFor(c);
            Spelling(p) == S.EscapeChar(c) && PlainPiece(p) && ProperPiece(p) && Meaning(p) == [c]
  {
    hide SpellsHex, HexDigit, U.Encode;
    if c as int < 0x20 {
      ControlSpelled(c as int);
      AsciiEncoded(c as int);
      LowerCaseDigits(c as int / 16, c as int % 16);
    }
  }

  lemma LowerCaseDigits(hi: nat, lo: nat)
    requires hi < 16 && lo < 16
    ensures var hex := "00" + [HexDigit(hi), HexDigit(lo)];
            forall k :: 0 <= k < |hex| ==> hex[k] in "0123456789abcdef"
  {
    hide HexDigit;
    LowerCaseDigit(hi);
    LowerCaseDigit(lo);
  }

  lemma LowerCaseDigit(d: nat)
    requires d < 16
    ensures HexDigit(d) in "0123456789abcdef"
  {
    assert "0123456789abcdef"[d] == HexDigit(d);
  }

  lemma AsciiEncoded(n: nat)
    requires n < 0x80
    ensures U.Encode(n) == [n as char]
  {
  }

  lemma {:induction false} LiteralLaid(s: string) returns (ps: seq<Piece>)
    requires NulFree(s)
    ensures Proper(ps) && Plain(ps) && SpelledAll(ps) == S.Escaped(s) && MeaningAll(ps) == s
  {
    hide Meaning, ProperPiece, PlainPiece, Spelling, S.EscapeChar, PieceFor;
    if s == "" {
      ps := [];
    } else {
      PieceIs(s[0]);
      var more := LiteralLaid(s[1..]);
      ps := [PieceFor(s[0])] + more;
      ProperCons(PieceFor(s[0]), more);
      assert s == [s[0]] + s[1..];
    }
  }

  lemma NameLaid(s: string) returns (ps: seq<Piece>)
    requires NulFree(s)
    ensures Plain(ps) && Quoted(ps) == S.LiteralText(s) && StringOf(ps) == s
  {
    hide S.Escaped, Proper, MeaningAll, SpelledAll;
    ps := LiteralLaid(s);
  }

  // ----- trees -----

  lemma {:induction false} IndentIs(level: nat)
    ensures Indent(level) == seq(4 * level, _ => ' ')
  {
    if level > 0 {
      IndentIs(level - 1);
      assert "    " + seq(4 * (level - 1), _ => ' ') == seq(4 * level, _ => ' ');
    }
  }

  lemma NewLineIs(level: nat, pretty: bool)
    ensures NewLine(level, pretty) == When(pretty, "\n") + When(pretty, Indent(level))
  {
    IndentIs(level);
  }

  /**
   Whatever the serializer writes for a well-formed value is a spelling of the value in that layout;
   with the compact layout it holds no white space outside its literals.
   */
  lemma {:induction false} TextLaid(io: NumberIO, v: Json, level: nat, pretty: bool) returns (x: Syntax)
    requires WellFormed(v)
    ensures Text(io, v, level, pretty) == Written(x) && Meant(x) == v && Shaped(x, level, pretty)
    decreases v, Count(v) + 1
  {
    hide Children, NewLine, WrittenItems, WrittenEntries, MeantItems, MeantEntries, Quoted, StringOf, Plain;
    hide ShapedItems, ShapedEntries, S.LiteralText, Indent, DistinctNames;
    match v
    case Null => x := NullWord;
    case Boolean(b) => x := Word(b);
    case Number(n) => x := Digits(io.format(n), n);
    case String(s) =>
      var ps := NameLaid(s);
      x := Literal(ps);
    case Array(vs) =>
      if vs == [] {
        x := Brackets("", []);
        EmptyLaid(io, v, level, pretty);
      } else {
        var items := ItemsLaid(io, v, 0, level, pretty);
        x := Brackets("", items);
        assert vs[0..] == vs;
      }
    case Object(ms) =>
      if ms == [] {
        x := Braces("", []);
        EmptyLaid(io, v, level, pretty);
      } else {
        var entries := EntriesLaid(io, v, 0, level, pretty);
        x := Braces("", entries);
        assert ms[0..] == ms;
      }
  }

  lemma EmptyLaid(io: NumberIO, v: Json, level: nat, pretty: bool)
    requires (v.Array? || v.Object?) && Count(v) == 0
    ensures Body(io, v, level, pretty) == ""
    ensures ShapedItems([], level, pretty) && ShapedEntries([], level, pretty)
    ensures MeantItems([]) == [] && MeantEntries([]) == []
  {
  }

  /** The text of the children from index i on, with the line ends around it. */
  function Around(io: NumberIO, v: Json, i: nat, level: nat, pretty: bool): string
    requires (v.Array? || v.Object?) && i <= Count(v)
  {
    When(pretty, "\n") + Children(io, v, i, level, pretty) + When(pretty, Indent(level))
  }

  lemma AroundStep(io: NumberIO, v: Json, i: nat, level: nat, pretty: bool)
    requires (v.Array? || v.Object?) && i < Count(v)
    ensures Around(io, v, i, level, pretty) ==
            NewLine(level + 1, pretty) + Z.Entry(io, v, i, level, pretty)
            + (if i == Count(v) - 1 then NewLine(level, pretty) else "," + Around(io, v, i + 1, level, pretty))
  {
    hide *;
    hide Around;
    NewLineIs(level + 1, pretty);
    NewLineIs(level, pretty);
    ChildrenStep(io, v, i, level, pretty);
    AroundIs(io, v, i, level, pretty);
    AroundIs(io, v, i + 1, level, pretty);
    var line, end := When(pretty, "\n"), When(pretty, Indent(level));
    var a, e := When(pretty, Indent(level + 1)), Z.Entry(io, v, i, level, pretty);
    var d := Children(io, v, i + 1, level, pretty);
    WhenIs(i < Count(v) - 1, ",");
    if i == Count(v) - 1 {
      LastText(line, a, e, d, end);
    } else {
      MoreText(line, a, e, d, end);
    }
  }

  lemma AroundIs(io: NumberIO, v: Json, i: nat, level: nat, pretty: bool)
    requires (v.Array? || v.Object?) && i <= Count(v)
    ensures Around(io, v, i, level, pretty) ==
            When(pretty, "\n") + Children(io, v, i, level, pretty) + When(pretty, Indent(level))
  {
  }

  lemma WhenIs(c: bool, s: string)
    ensures When(c, s) == if c then s else ""
  {
  }

  lemma LastText(line: string, a: string, e: string, d: string, end: string)
    requires d == ""
    ensures line + (a + e + "" + line + d) + end == line + a + e + (line + end)
  {
  }

  lemma MoreText(line: string, a: string, e: string, d: string, end: string)
    ensures line + (a + e + "," + line + d) + end == line + a + e + ("," + (line + d + end))
  {
  }

  lemma ChildrenStep(io: NumberIO, v: Json, i: nat, level: nat, pretty: bool)
    requires (v.Array? || v.Object?) && i < Count(v)
    ensures Children(io, v, i, level, pretty) ==
            When(pretty, Indent(level + 1)) + Z.Entry(io, v, i, level, pretty)
            + When(i < Count(v) - 1, ",") + When(pretty, "\n") + Children(io, v, i + 1, level, pretty)
    ensures Children(io, v, Count(v), level, pretty) == ""
  {
    hide Z.Entry, Indent;
  }

  lemma {:induction false} ItemsLaid(io: NumberIO, v: Json, i: nat, level: nat, pretty: bool)
    returns (items: seq<Item>)
    requires WellFormed(v) && v.Array? && i < Count(v)
    ensures items != [] && WrittenItems(items) == Around(io, v, i, level, pretty)
    ensures MeantItems(items) == v.items[i..] && ShapedItems(items, level, pretty)
    ensures |items| == Count(v) - i
    decreases v, Count(v) - i
  {
    hide *;
    CountOf(v);
    ItemOf(io, v, i, level, pretty);
    var x := TextLaid(io, v.items[i], level + 1, pretty);
    AroundStep(io, v, i, level, pretty);
    var last := i == Count(v) - 1;
    var more: seq<Item> := [];
    if !last {
      more := ItemsLaid(io, v, i + 1, level, pretty);
    }
    var first := Item(NewLine(level + 1, pretty), x, if last then NewLine(level, pretty) else "");
    items := [first] + more;
    ShapedItemIs(first, level, pretty);
    ItemsLaidOut(first, more, level, pretty);
    assert v.items[i..] == [v.items[i]] + v.items[i + 1..];
  }

  lemma CountOf(v: Json)
    ensures v.Array? ==> Count(v) == |v.items|
    ensures v.Object? ==> Count(v) == |v.members|
  {
  }

  lemma ItemOf(io: NumberIO, v: Json, i: nat, level: nat, pretty: bool)
    requires WellFormed(v) && v.Array? && i < Count(v)
    ensures WellFormed(v.items[i]) && v.items[i] < v
    ensures Z.Entry(io, v, i, level, pretty) == Text(io, v.items[i], level + 1, pretty)
  {
    hide Text;
  }

  lemma ShapedItemIs(item: Item, level: nat, pretty: bool)
    requires Shaped(item.value, level + 1, pretty)
    ensures item.after == NewLine(level, pretty) ==> ShapedItem(item, item.before, true, level, pretty)
    ensures item.after == "" ==> ShapedItem(item, item.before, false, level, pretty)
  {
    hide Shaped, NewLine;
  }

  lemma ItemsLaidOut(first: Item, more: seq<Item>, level: nat, pretty: bool)
    requires ShapedItem(first, NewLine(level + 1, pretty), more == [], level, pretty)
    requires more != [] ==> ShapedItems(more, level, pretty)
    ensures ShapedItems([first] + more, level, pretty)
    ensures MeantItems([first] + more) == [Meant(first.value)] + MeantItems(more)
    ensures more == [] ==> MeantItems(more) == []
    ensures WrittenItems([first] + more) ==
            first.before + Written(first.value) + first.after + (if more == [] then "" else "," + WrittenItems(more))
  {
    hide ShapedItem, Written, Meant, NewLine;
    assert ([first] + more)[1..] == more;
  }

  lemma {:induction false} EntriesLaid(io: NumberIO, v: Json, i: nat, level: nat, pretty: bool)
    returns (entries: seq<Entry>)
    requires WellFormed(v) && v.Object? && i < Count(v)
    ensures entries != [] && WrittenEntries(entries) == Around(io, v, i, level, pretty)
    ensures MeantEntries(entries) == v.members[i..] && ShapedEntries(entries, level, pretty)
    ensures |entries| == Count(v) - i
    decreases v, Count(v) - i
  {
    hide *;
    CountOf(v);
    var m := v.members[i];
    MemberOf(io, v, i, level, pretty);
    var x := TextLaid(io, m.value, level + 1, pretty);
    var name := NameLaid(m.name);
    AroundStep(io, v, i, level, pretty);
    var last := i == Count(v) - 1;
    var more: seq<Entry> := [];
    if !last {
      more := EntriesLaid(io, v, i + 1, level, pretty);
    }
    var space := if pretty then " " else "";
    var first := Entry(NewLine(level + 1, pretty), name, "",
                       Item(space, x, if last then NewLine(level, pretty) else ""));
    entries := [first] + more;
    ShapedItemIs(first.item, level, pretty);
    EntriesLaidOut(first, more, level, pretty);
    assert v.members[i..] == [m] + v.members[i + 1..];
    MemberText(NewLine(level + 1, pretty), Quoted(name), space, Written(x), first.item.after,
               if last then "" else "," + WrittenEntries(more));
  }

  lemma MemberText(line: string, name: string, space: string, value: string, after: string, behind: string)
    ensures line + name + "" + ":" + (space + value + after) + behind ==
            line + (name + ":" + space + value) + (after + behind)
  {
  }

  lemma MemberOf(io: NumberIO, v: Json, i: nat, level: nat, pretty: bool)
    requires WellFormed(v) && v.Object? && i < Count(v)
    ensures var m := v.members[i];
            && WellFormed(m.value) && m.value < v && NulFree(m.name)
            && Z.Entry(io, v, i, level, pretty) ==
               S.LiteralText(m.name) + ":" + (if pretty then " " else "") + Text(io, m.value, level + 1, pretty)
  {
    hide Text, S.LiteralText;
    FindAt(v.members, i);
  }

  lemma EntriesLaidOut(first: Entry, more: seq<Entry>, level: nat, pretty: bool)
    requires first.lead == NewLine(level + 1, pretty) && first.gap == "" && Plain(first.name)
    requires ShapedItem(first.item, if pretty then " " else "", more == [], level, pretty)
    requires more != [] ==> ShapedEntries(more, level, pretty)
    ensures ShapedEntries([first] + more, level, pretty)
    ensures MeantEntries([first] + more) ==
            [Member(StringOf(first.name), Meant(first.item.value))] + MeantEntries(more)
    ensures more == [] ==> MeantEntries(more) == []
    ensures WrittenEntries([first] + more) ==
            first.lead + Quoted(first.name) + first.gap + ":"
            + (first.item.before + Written(first.item.value) + first.item.after)
            + (if more == [] then "" else "," + WrittenEntries(more))
  {
    hide ShapedItem, WrittenEntry, Meant, NewLine, Plain, StringOf;
    assert ([first] + more)[1..] == more;
    EntryWritten(first);
  }

  lemma EntryWritten(entry: Entry)
    ensures WrittenEntry(entry) ==
            entry.lead + Quoted(entry.name) + entry.gap + ":"
            + (entry.item.before + Written(entry.item.value) + entry.item.after)
  {
    hide Quoted, Written;
  }
}

/**
 The texts json_parse_string accepts, written down as a grammar: values as section 2 to 7 of RFC 8259
 spell them, with the white space of the C locale, and with numbers as strtod reads them. The parser
 reads every spelling as the value it spells, and whatever it accepts is a spelling.
 */
module JsonGrammar {
  import opened Options
  import opened CString
  import opened JsonTree
  import opened JsonParser
  import opened L = JsonLiterals
  import S = JsonStrings

  // ----- spellings -----

  /** A value in a container, between white space. */
  datatype Item = Item(before: string, value: Syntax, after: string)

  /** A member: white space, the name, white space up to the colon, and the value. */
  datatype Entry = Entry(lead: string, name: seq<Piece>, gap: string, item: Item)

  /** A value as it is spelled; an empty container may hold white space. */
  datatype Syntax =
    | NullWord
    | Word(b: bool)
    | Digits(text: string, n: real)
    | Literal(ps: seq<Piece>)
    | Brackets(gap: string, items: seq<Item>)
    | Braces(gap: string, entries: seq<Entry>)

  function Written(x: Syntax): string
    decreases x
  {
    match x
    case NullWord => "null"
    case Word(b) => if b then "true" else "false"
    case Digits(text, _) => text
    case Literal(ps) => Quoted(ps)
    case Brackets(gap, items) => "[" + (if items == [] then gap else WrittenItems(items)) + "]"
    case Braces(gap, entries) => "{" + (if entries == [] then gap else WrittenEntries(entries)) + "}"
  }

  function WrittenItem(item: Item): string
    decreases item
  {
    item.before + Written(item.value) + item.after
  }

  function WrittenItems(items: seq<Item>): string
    decreases items
  {
    if items == [] then ""
    else WrittenItem(items[0]) + (if |items| == 1 then "" else "," + WrittenItems(items[1..]))
  }

  function WrittenEntry(entry: Entry): string
    decreases entry
  {
    entry.lead + Quoted(entry.name) + entry.gap + ":" + WrittenItem(entry.item)
  }

  function WrittenEntries(entries: seq<Entry>): string
    decreases entries
  {
    if entries == [] then ""
    else WrittenEntry(entries[0]) + (if |entries| == 1 then "" else "," + WrittenEntries(entries[1..]))
  }

  // ----- what is spelled -----

  /** The C string a literal stands for. */
  ghost function StringOf(ps: seq<Piece>): string {
    if Proper(ps) then UpToNul(MeaningAll(ps)) else ""
  }

  ghost function Meant(x: Syntax): Json
    decreases x
  {
    match x
    case NullWord => Null
    case Word(b) => Boolean(b)
    case Digits(_, n) => Number(n)
    case Literal(ps) => String(StringOf(ps))
    case Brackets(_, items) => Array(MeantItems(items))
    case Braces(_, entries) => Object(MeantEntries(entries))
  }

  ghost function MeantItems(items: seq<Item>): (r: seq<Json>)
    ensures |r| == |items|
    decreases items
  {
    if items == [] then [] else [Meant(items[0].value)] + MeantItems(items[1..])
  }

  ghost function MeantEntries(entries: seq<Entry>): (r: seq<Member>)
    ensures |r| == |entries|
    decreases entries
  {
    if entries == [] then []
    else [Member(StringOf(entries[0].name), Meant(entries[0].item.value))] + MeantEntries(entries[1..])
  }

  // ----- which spellings are sound -----

  /** No hexadecimal digits, and after a leading zero only a fraction. */
  ghost predicate DecimalText(s: string) {
    && 'x' !in s && 'X' !in s
    && !exists c: char, more: string :: c != '.' && (s == "0" + [c] + more || s == "-0" + [c] + more)
  }

  /** In front of `post`, on which it depends how far a number reaches. */
  ghost predicate Sound(io: NumberIO, x: Syntax, post: string)
    decreases x
  {
    match x
    case Digits(text, n) =>
      && text + post != "" && (text + post)[0] in "-0123456789"
      && io.scan(text + post) == Some((n, |text|)) && DecimalText(text)
    case Literal(ps) => Proper(ps)
    case Brackets(gap, items) => Blank(gap) && SoundItems(io, items, "]" + post)
    case Braces(gap, entries) =>
      Blank(gap) && SoundEntries(io, entries, "}" + post) && DistinctNames(MeantEntries(entries))
    case _ => true
  }

  ghost predicate SoundItem(io: NumberIO, item: Item, post: string)
    decreases item
  {
    Blank(item.before) && Blank(item.after) && Sound(io, item.value, item.after + post)
  }

  ghost predicate SoundItems(io: NumberIO, items: seq<Item>, post: string)
    decreases items
  {
    items != [] ==>
      var more := if |items| == 1 then "" else "," + WrittenItems(items[1..]);
      SoundItem(io, items[0], more + post) && SoundItems(io, items[1..], post)
  }

  ghost predicate SoundEntry(io: NumberIO, entry: Entry, post: string)
    decreases entry
  {
    Blank(entry.lead) && Proper(entry.name) && Blank(entry.gap) && SoundItem(io, entry.item, post)
  }

  ghost predicate SoundEntries(io: NumberIO, entries: seq<Entry>, post: string)
    decreases entries
  {
    entries != [] ==>
      var more := if |entries| == 1 then "" else "," + WrittenEntries(entries[1..]);
      SoundEntry(io, entries[0], more + post) && SoundEntries(io, entries[1..], post)
  }

  // ----- white space -----

  /** What SKIP_WHITESPACES takes is white space, and nothing but that. */
  lemma SkippedIsBlank(t: string) returns (gap: string)
    ensures Blank(gap) && t == gap + SkipSpaces(t)
  {
    hide SkipSpaces, IsSpace;
    gap := t[..|t| - |SkipSpaces(t)|];
    SkippedSpaces(t);
    forall k | 0 <= k < |gap|
      ensures gap[k] in [' ', '\t', '\n', 0x0B as char, 0x0C as char, '\r']
    {
      BlankIsSpace(t[k]);
    }
  }

  lemma {:induction false} SkippedSpaces(t: string)
    ensures forall k :: 0 <= k < |t| - |SkipSpaces(t)| ==> IsSpace(t[k])
    ensures !IsSpace(Head(SkipSpaces(t)))
  {
    hide IsSpace;
    NulIsNoSpace();
    if IsSpace(Head(t)) {
      SkippedSpaces(t[1..]);
      assert forall k :: 0 < k < |t| ==> t[k] == t[1..][k - 1];
    }
  }

  lemma SkippedOnce(t: string)
    ensures SkipSpaces(SkipSpaces(t)) == SkipSpaces(t)
  {
    hide IsSpace;
    SkippedSpaces(t);
    SkipStep(SkipSpaces(t));
  }

  lemma SkipStep(t: string)
    ensures SkipSpaces(t) == if IsSpace(Head(t)) then SkipSpaces(t[1..]) else t
    ensures IsSpace(Head(t)) ==> t != "" && t[0] == Head(t)
  {
    hide IsSpace;
    NulIsNoSpace();
  }

  lemma NothingIsBlank()
    ensures Blank("")
  {
  }

  lemma BlankJoined(a: string, b: string)
    requires Blank(a) && Blank(b)
    ensures Blank(a + b)
  {
  }

  lemma NothingSkipped(t: string)
    requires t != "" && t[0] in ['"', ',', ':', '[', ']', '{', '}']
    ensures SkipSpaces(t) == t
  {
  }

  /** White space in front of a value changes nothing. */
  lemma BlankBefore(io: NumberIO, gap: string, t: string, nesting: nat)
    requires Blank(gap)
    ensures ParseValue(io, gap + t, nesting) == ParseValue(io, t, nesting)
  {
    hide SkipSpaces, ParseArray, ParseObject, ParseScalar;
    BlankSkipped(gap, t);
  }

  // ----- scalars -----

  lemma DecimalIs(s: string)
    ensures DecimalText(s) <==> IsDecimal(s)
  {
    if |s| > 1 && s[0] == '0' && s[1] != '.' {
      assert s == "0" + [s[1]] + s[2..];
    }
    if |s| > 2 && s[0] == '-' && s[1] == '0' && s[2] != '.' {
      assert s == "-0" + [s[2]] + s[3..];
    }
    if c: char, more: string :| c != '.' && (s == "0" + [c] + more || s == "-0" + [c] + more) {
      assert s == "0" + [c] + more ==> s[0] == '0' && s[1] == c;
      assert s == "-0" + [c] + more ==> s[0] == '-' && s[1] == '0' && s[2] == c;
    }
    assert 'x' in s <==> exists k :: 0 <= k < |s| && s[k] == 'x';
    assert 'X' in s <==> exists k :: 0 <= k < |s| && s[k] == 'X';
  }

  lemma NumberStart(c: char)
    ensures StartsNumber(c) <==> c in "-0123456789"
  {
  }

  ghost predicate Scalar(x: Syntax) {
    !x.Brackets? && !x.Braces?
  }

  /** A sound spelling starts with one of these, so that parse_value can tell what follows. */
  lemma FirstCharacter(io: NumberIO, x: Syntax, post: string)
    requires Sound(io, x, post)
    ensures var t := Written(x) + post;
            && t != ""
            && match x
               case NullWord => t[0] == 'n'
               case Word(b) => t[0] == 't' || t[0] == 'f'
               case Digits(_, _) => StartsNumber(t[0])
               case Literal(_) => t[0] == '"'
               case Brackets(_, _) => t[0] == '['
               case Braces(_, _) => t[0] == '{'
  {
    hide StartsNumber;
    match x
    case Digits(text, _) => NumberStart((text + post)[0]);
    case _ =>
  }

  lemma Distinguished(io: NumberIO, x: Syntax, post: string)
    requires Sound(io, x, post)
    ensures var t := Written(x) + post;
            && t != "" && SkipSpaces(t) == t && Head(t) == t[0] && t[0] != NUL && t[0] != ']' && t[0] != '}'
            && (Head(t) == '[' <==> x.Brackets?) && (Head(t) == '{' <==> x.Braces?)
  {
    hide *;
    FirstCharacter(io, x, post);
    Tells(Written(x) + post, x);
  }

  lemma Tells(t: string, x: Syntax)
    requires t != ""
    requires match x
             case NullWord => t[0] == 'n'
             case Word(b) => t[0] == 't' || t[0] == 'f'
             case Digits(_, _) => StartsNumber(t[0])
             case Literal(_) => t[0] == '"'
             case Brackets(_, _) => t[0] == '['
             case Braces(_, _) => t[0] == '{'
    ensures SkipSpaces(t) == t && Head(t) == t[0] && t[0] != NUL && t[0] != ']' && t[0] != '}'
    ensures (Head(t) == '[' <==> x.Brackets?) && (Head(t) == '{' <==> x.Braces?)
  {
  }

  lemma ScalarRead(io: NumberIO, x: Syntax, post: string)
    requires Scalar(x) && Sound(io, x, post)
    ensures ParseScalar(io, Written(x) + post) == Some((Meant(x), post))
  {
    hide S.QuotedString, IsDecimal, DecimalText, Proper, UpToNul, MeaningAll, Quoted;
    var t := Written(x) + post;
    match x
    case NullWord => assert "null" <= t && t[4..] == post;
    case Word(b) =>
      assert b ==> "true" <= t && t[4..] == post;
      assert !b ==> t[0] == 'f' && "false" <= t && t[5..] == post;
    case Digits(text, n) =>
      NumberStart(t[0]);
      DecimalIs(text);
      assert t[..|text|] == text && t[|text|..] == post;
    case Literal(ps) =>
      LiteralRead(ps, post);
      StartsWithQuote(ps, post);
  }

  lemma StartsWithQuote(ps: seq<Piece>, post: string)
    ensures Quoted(ps) + post != "" && (Quoted(ps) + post)[0] == '"' == Head(Quoted(ps) + post) && '"' != NUL
  {
  }

  lemma ScalarOf(io: NumberIO, t: string) returns (x: Syntax)
    requires ParseScalar(io, t).Some?
    ensures var (v, rest) := ParseScalar(io, t).value;
            Scalar(x) && t == Written(x) + rest && Sound(io, x, rest) && Meant(x) == v
  {
    hide S.QuotedString, IsDecimal, DecimalText, Proper, UpToNul, MeaningAll, Quoted;
    var (v, rest) := ParseScalar(io, t).value;
    var c := Head(t);
    if c == '"' {
      var ps := LiteralOf(t);
      x := Literal(ps);
    } else if c == 'f' || c == 't' {
      x := Word(v.b);
    } else if StartsNumber(c) {
      var (n, len) := io.scan(t).value;
      x := Digits(t[..len], n);
      assert t == t[..len] + t[len..];
      NumberStart(t[0]);
      DecimalIs(t[..len]);
    } else {
      x := NullWord;
    }
  }

  // ----- every sound spelling is read -----

  ghost predicate AllWithin(vs: seq<Json>, depth: int) {
    forall i :: 0 <= i < |vs| ==> Within(vs[i], depth)
  }

  ghost predicate MembersWithin(ms: seq<Member>, depth: int) {
    forall i :: 0 <= i < |ms| ==> Within(ms[i].value, depth)
  }

  function Answer(ok: bool, v: Json, post: string): Parsed {
    if ok then Some((v, post)) else None
  }

  /** A value is read as what it spells, unless a node lies too deep, and then refused. */
  lemma {:induction false} SpellingRead(io: NumberIO, x: Syntax, post: string, nesting: nat)
    requires Sound(io, x, post)
    ensures ParseValue(io, Written(x) + post, nesting) ==
            Answer(Within(Meant(x), MAX_NESTING - nesting), Meant(x), post)
    decreases x, 1
  {
    hide *;
    var t := Written(x) + post;
    Distinguished(io, x, post);
    DispatchIs(io, t, nesting);
    AnswerIs(Within(Meant(x), MAX_NESTING - nesting), Meant(x), post);
    WithinIs(Meant(x), MAX_NESTING - nesting);
    if nesting <= MAX_NESTING {
      if x.Brackets? {
        BracketsRead(io, x, post, nesting + 1);
      } else if x.Braces? {
        BracesRead(io, x, post, nesting + 1);
      } else {
        assert Scalar(x) by {
          ScalarIs(x);
        }
        ScalarRead(io, x, post);
        ScalarMeant(x, MAX_NESTING - nesting);
      }
    }
  }

  lemma AnswerIs(ok: bool, v: Json, post: string)
    ensures Answer(ok, v, post) == if ok then Some((v, post)) else None
  {
  }

  lemma ScalarIs(x: Syntax)
    ensures Scalar(x) <==> !x.Brackets? && !x.Braces?
  {
  }

  lemma ScalarMeant(x: Syntax, depth: nat)
    requires Scalar(x)
    ensures Within(Meant(x), depth)
  {
    hide StringOf;
  }

  lemma WithinIs(v: Json, depth: int)
    ensures depth < 0 ==> !Within(v, depth)
  {
  }

  lemma DispatchIs(io: NumberIO, t: string, nesting: nat)
    requires SkipSpaces(t) == t
    ensures ParseValue(io, t, nesting) ==
            if nesting > MAX_NESTING then None
            else if Head(t) == '{' then ParseObject(io, t, nesting + 1)
            else if Head(t) == '[' then ParseArray(io, t, nesting + 1)
            else ParseScalar(io, t)
  {
    hide SkipSpaces, ParseObject, ParseArray, ParseScalar;
  }

  /** After the opening bracket. */
  lemma {:induction false} BracketsRead(io: NumberIO, x: Syntax, post: string, nesting: nat)
    requires x.Brackets? && Sound(io, x, post) && nesting <= MAX_NESTING + 1
    requires Head(Written(x) + post) == '['
    ensures ParseArray(io, Written(x) + post, nesting) ==
            Answer(Within(Meant(x), MAX_NESTING - nesting + 1), Meant(x), post)
    decreases x, 0
  {
    hide *;
    var t := Written(x) + post;
    BracketsParts(io, x, post);
    ArrayWithin(x, MAX_NESTING - nesting);
    ArrayStarts(io, t, nesting);
    AnswerIs(Within(Meant(x), MAX_NESTING - nesting + 1), Meant(x), post);
    if x.items == [] {
      EndReached(x.gap, "]", post);
      NoneWithin(MAX_NESTING - nesting);
    } else {
      ItemsInside(io, x.items, post, nesting);
    }
  }

  lemma ItemsInside(io: NumberIO, items: seq<Item>, post: string, nesting: nat)
    requires items != [] && SoundItems(io, items, "]" + post)
    ensures var u, vs := SkipSpaces(WrittenItems(items) + ("]" + post)), MeantItems(items);
            && Head(u) != ']'
            && ParseItems(io, u, nesting, []) ==
               if AllWithin(vs, MAX_NESTING - nesting) then Some((Array(vs), post)) else None
    decreases items, 2
  {
    hide *;
    var vs := MeantItems(items);
    assert [] + vs == vs;
    ItemsRead(io, items, post, nesting, []);
    ItemsStart(io, items, post);
    AnswerIs(AllWithin(vs, MAX_NESTING - nesting), Array(vs), post);
  }

  /** The end of an empty container, behind white space. */
  lemma EndReached(gap: string, close: string, post: string)
    requires Blank(gap) && (close == "]" || close == "}")
    ensures var t := close + post;
            SkipSpaces(gap + t) == t && Head(t) == close[0] && t != "" && t[1..] == post
  {
    hide Blank, SkipSpaces;
    BlankSkipped(gap, close + post);
    NothingSkipped(close + post);
  }

  lemma NoneWithin(depth: int)
    ensures AllWithin([], depth) && MembersWithin([], depth)
  {
  }

  lemma HeadOf(t: string)
    requires t != ""
    ensures Head(t) == t[0]
  {
  }

  lemma BracketsParts(io: NumberIO, x: Syntax, post: string)
    requires x.Brackets? && Sound(io, x, post)
    ensures var (gap, items) := (x.gap, x.items);
            && Blank(gap) && SoundItems(io, items, "]" + post) && Meant(x) == Array(MeantItems(items))
            && var t := Written(x) + post;
               t != "" && t[1..] == (if items == [] then gap + ("]" + post) else WrittenItems(items) + ("]" + post))
    ensures x.items == [] ==> MeantItems(x.items) == []
  {
    hide *;
    BracketsSound(io, x, post);
    BracketsWritten(x);
    var inside := if x.items == [] then x.gap else WrittenItems(x.items);
    assert Written(x) + post == "[" + (inside + ("]" + post));
  }

  lemma BracketsSound(io: NumberIO, x: Syntax, post: string)
    requires x.Brackets? && Sound(io, x, post)
    ensures Blank(x.gap) && SoundItems(io, x.items, "]" + post)
  {
    hide Blank, SoundItems;
  }

  lemma BracketsWritten(x: Syntax)
    requires x.Brackets?
    ensures Meant(x) == Array(MeantItems(x.items))
    ensures Written(x) == "[" + (if x.items == [] then x.gap else WrittenItems(x.items)) + "]"
    ensures x.items == [] ==> MeantItems(x.items) == []
  {
    hide WrittenItems;
  }

  lemma ArrayWithin(x: Syntax, depth: int)
    requires x.Brackets? && depth >= -1
    ensures Within(Meant(x), depth + 1) <==> AllWithin(MeantItems(x.items), depth)
  {
    hide MeantItems;
  }

  lemma ArrayStarts(io: NumberIO, t: string, nesting: nat)
    requires Head(t) == '['
    ensures t != ""
    ensures var u := SkipSpaces(t[1..]);
            ParseArray(io, t, nesting) ==
            if Head(u) == ']' then Some((Array([]), u[1..])) else ParseItems(io, u, nesting, [])
  {
    hide ParseItems, SkipSpaces;
  }

  /** The first item is there once white space is skipped. */
  lemma ItemsStart(io: NumberIO, items: seq<Item>, post: string)
    requires items != [] && SoundItems(io, items, "]" + post)
    ensures var first := items[0];
            var rest := if |items| == 1 then "]" + post else "," + (WrittenItems(items[1..]) + ("]" + post));
            var u := SkipSpaces(WrittenItems(items) + ("]" + post));
            && Sound(io, first.value, first.after + rest)
            && u == Written(first.value) + (first.after + rest)
            && SkipSpaces(first.after + rest) == rest
            && Head(u) != NUL && Head(u) != ']'
            && MeantItems(items) == [Meant(first.value)] + MeantItems(items[1..])
            && SoundItems(io, items[1..], "]" + post)
    ensures |items| == 1 ==> MeantItems(items[1..]) == []
  {
    hide *;
    var first := items[0];
    var rest := if |items| == 1 then "]" + post else "," + (WrittenItems(items[1..]) + ("]" + post));
    FirstItem(io, items, post);
    assert WrittenItems(items) + ("]" + post) == first.before + (Written(first.value) + (first.after + rest));
    BlankSkipped(first.before, Written(first.value) + (first.after + rest));
    Distinguished(io, first.value, first.after + rest);
    BlankSkipped(first.after, rest);
    NothingSkipped(rest);
  }

  lemma FirstItem(io: NumberIO, items: seq<Item>, post: string)
    requires items != [] && SoundItems(io, items, "]" + post)
    ensures var first := items[0];
            var rest := if |items| == 1 then "]" + post else "," + (WrittenItems(items[1..]) + ("]" + post));
            && Sound(io, first.value, first.after + rest) && Blank(first.before) && Blank(first.after)
            && WrittenItems(items) ==
               first.before + Written(first.value) + first.after
               + (if |items| == 1 then "" else "," + WrittenItems(items[1..]))
            && MeantItems(items) == [Meant(first.value)] + MeantItems(items[1..])
            && SoundItems(io, items[1..], "]" + post)
    ensures |items| == 1 ==> MeantItems(items[1..]) == []
  {
    hide Blank, Sound, Written, Meant;
    var first := items[0];
    if |items| == 1 {
      assert "" + ("]" + post) == "]" + post;
    } else {
      assert "," + WrittenItems(items[1..]) + ("]" + post) == "," + (WrittenItems(items[1..]) + ("]" + post));
    }
  }

  /** The loop of parse_array_value over the items. */
  lemma {:induction false} ItemsRead(io: NumberIO, items: seq<Item>, post: string, nesting: nat, read: seq<Json>)
    requires items != [] && SoundItems(io, items, "]" + post)
    ensures ParseItems(io, SkipSpaces(WrittenItems(items) + ("]" + post)), nesting, read) ==
            Answer(AllWithin(MeantItems(items), MAX_NESTING - nesting), Array(read + MeantItems(items)), post)
    decreases items, 1
  {
    hide *;
    var vs, depth := MeantItems(items), MAX_NESTING - nesting;
    var more := read + [Meant(items[0].value)];
    ItemRead(io, items, post, nesting, read);
    FirstWithin(vs, depth);
    AnswerIs(AllWithin(vs, depth), Array(read + vs), post);
    if |items| == 1 {
      assert read + vs == more;
    } else {
      ItemsRead(io, items[1..], post, nesting, more);
      assert more + MeantItems(items[1..]) == read + vs && vs[1..] == MeantItems(items[1..]);
      AnswerIs(AllWithin(vs[1..], depth), Array(read + vs), post);
    }
  }

  /** One turn of the loop. */
  lemma ItemRead(io: NumberIO, items: seq<Item>, post: string, nesting: nat, read: seq<Json>)
    requires items != [] && SoundItems(io, items, "]" + post)
    ensures MeantItems(items) == [Meant(items[0].value)] + MeantItems(items[1..])
    ensures SoundItems(io, items[1..], "]" + post) && (|items| == 1 ==> MeantItems(items[1..]) == [])
    ensures var more := read + [Meant(items[0].value)];
            ParseItems(io, SkipSpaces(WrittenItems(items) + ("]" + post)), nesting, read) ==
            if !Within(Meant(items[0].value), MAX_NESTING - nesting) then None
            else if |items| == 1 then Some((Array(more), post))
            else ParseItems(io, SkipSpaces(WrittenItems(items[1..]) + ("]" + post)), nesting, more)
    decreases items, 0
  {
    hide *;
    var first := items[0];
    var rest := if |items| == 1 then "]" + post else "," + (WrittenItems(items[1..]) + ("]" + post));
    var u := SkipSpaces(WrittenItems(items) + ("]" + post));
    ItemsStart(io, items, post);
    SpellingRead(io, first.value, first.after + rest, nesting);
    ItemsStep(io, u, nesting, read);
    AnswerIs(Within(Meant(first.value), MAX_NESTING - nesting), Meant(first.value), first.after + rest);
    HeadOf(rest);
    ArrayFinished(post, read + [Meant(first.value)]);
    assert |items| != 1 ==> rest[1..] == WrittenItems(items[1..]) + ("]" + post);
  }

  lemma FirstWithin(vs: seq<Json>, depth: int)
    requires vs != []
    ensures AllWithin(vs, depth) <==> Within(vs[0], depth) && AllWithin(vs[1..], depth)
    ensures |vs| == 1 ==> AllWithin(vs[1..], depth)
  {
    hide Within;
    assert Within(vs[0], depth) && AllWithin(vs[1..], depth) ==>
           forall i :: 0 < i < |vs| ==> vs[i] == vs[1..][i - 1];
  }

  lemma ItemsStep(io: NumberIO, t: string, nesting: nat, read: seq<Json>)
    requires Head(t) != NUL
    ensures ParseItems(io, t, nesting, read) ==
            var item := ParseValue(io, t, nesting);
            if item.None? then None
            else
              var (v, t1) := item.value;
              var t2 := SkipSpaces(t1);
              if Head(t2) != ',' then FinishArray(t2, read + [v])
              else ParseItems(io, SkipSpaces(t2[1..]), nesting, read + [v])
  {
    hide ParseValue, SkipSpaces, FinishArray;
  }

  lemma ArrayFinished(post: string, vs: seq<Json>)
    requires vs != []
    ensures FinishArray("]" + post, vs) == Some((Array(vs), post))
  {
    hide SkipSpaces;
    NothingSkipped("]" + post);
    assert ("]" + post)[1..] == post;
  }

  /** The same for an object: names are read, and a name met before refuses the object. */
  lemma {:induction false} BracesRead(io: NumberIO, x: Syntax, post: string, nesting: nat)
    requires x.Braces? && Sound(io, x, post) && nesting <= MAX_NESTING + 1
    requires Head(Written(x) + post) == '{'
    ensures ParseObject(io, Written(x) + post, nesting) ==
            Answer(Within(Meant(x), MAX_NESTING - nesting + 1), Meant(x), post)
    decreases x, 0
  {
    hide *;
    var t := Written(x) + post;
    BracesParts(io, x, post);
    ObjectWithin(x, MAX_NESTING - nesting);
    ObjectStarts(io, t, nesting);
    AnswerIs(Within(Meant(x), MAX_NESTING - nesting + 1), Meant(x), post);
    if x.entries == [] {
      EndReached(x.gap, "}", post);
      NoneWithin(MAX_NESTING - nesting);
    } else {
      EntriesInside(io, x.entries, post, nesting);
    }
  }

  lemma EntriesInside(io: NumberIO, entries: seq<Entry>, post: string, nesting: nat)
    requires entries != [] && SoundEntries(io, entries, "}" + post) && DistinctNames(MeantEntries(entries))
    ensures var u, ms := SkipSpaces(WrittenEntries(entries) + ("}" + post)), MeantEntries(entries);
            && Head(u) != '}'
            && ParseMembers(io, u, nesting, []) ==
               if MembersWithin(ms, MAX_NESTING - nesting) then Some((Object(ms), post)) else None
    decreases entries, 2
  {
    hide *;
    var ms := MeantEntries(entries);
    assert [] + ms == ms;
    EntriesRead(io, entries, post, nesting, []);
    EntriesStart(io, entries, post);
    AnswerIs(MembersWithin(ms, MAX_NESTING - nesting), Object(ms), post);
  }

  lemma BracesParts(io: NumberIO, x: Syntax, post: string)
    requires x.Braces? && Sound(io, x, post)
    ensures var (gap, entries) := (x.gap, x.entries);
            && Blank(gap) && SoundEntries(io, entries, "}" + post) && Meant(x) == Object(MeantEntries(entries))
            && DistinctNames(MeantEntries(entries))
            && var t := Written(x) + post;
               && t != ""
               && t[1..] == (if entries == [] then gap + ("}" + post) else WrittenEntries(entries) + ("}" + post))
    ensures x.entries == [] ==> MeantEntries(x.entries) == []
  {
    hide *;
    BracesSound(io, x, post);
    BracesWritten(x);
    var inside := if x.entries == [] then x.gap else WrittenEntries(x.entries);
    assert Written(x) + post == "{" + (inside + ("}" + post));
  }

  lemma BracesSound(io: NumberIO, x: Syntax, post: string)
    requires x.Braces? && Sound(io, x, post)
    ensures Blank(x.gap) && SoundEntries(io, x.entries, "}" + post) && DistinctNames(MeantEntries(x.entries))
  {
    hide Blank, SoundEntries, DistinctNames, MeantEntries;
  }

  lemma BracesWritten(x: Syntax)
    requires x.Braces?
    ensures Meant(x) == Object(MeantEntries(x.entries))
    ensures Written(x) == "{" + (if x.entries == [] then x.gap else WrittenEntries(x.entries)) + "}"
    ensures x.entries == [] ==> MeantEntries(x.entries) == []
  {
    hide WrittenEntries;
  }

  lemma ObjectWithin(x: Syntax, depth: int)
    requires x.Braces? && depth >= -1
    ensures Within(Meant(x), depth + 1) <==> MembersWithin(MeantEntries(x.entries), depth)
  {
    hide MeantEntries;
  }

  lemma ObjectStarts(io: NumberIO, t: string, nesting: nat)
    requires Head(t) == '{'
    ensures t != ""
    ensures var u := SkipSpaces(t[1..]);
            ParseObject(io, t, nesting) ==
            if Head(u) == '}' then Some((Object([]), u[1..])) else ParseMembers(io, u, nesting, [])
  {
    hide ParseMembers, SkipSpaces;
  }

  /** The first name is there once white space is skipped, and its value behind the colon. */
  lemma EntriesStart(io: NumberIO, entries: seq<Entry>, post: string)
    requires entries != [] && SoundEntries(io, entries, "}" + post)
    ensures var first := entries[0];
            var item := first.item;
            var rest := if |entries| == 1 then "}" + post else "," + (WrittenEntries(entries[1..]) + ("}" + post));
            var u := SkipSpaces(WrittenEntries(entries) + ("}" + post));
            && Sound(io, item.value, item.after + rest) && Blank(item.before)
            && KeyAt(u) == Some((StringOf(first.name), item.before + (Written(item.value) + (item.after + rest))))
            && SkipSpaces(item.after + rest) == rest
            && Head(u) != NUL && Head(u) != '}'
            && MeantEntries(entries) ==
               [Member(StringOf(first.name), Meant(item.value))] + MeantEntries(entries[1..])
            && SoundEntries(io, entries[1..], "}" + post)
    ensures |entries| == 1 ==> MeantEntries(entries[1..]) == []
  {
    hide *;
    var first := entries[0];
    var item := first.item;
    var rest := if |entries| == 1 then "}" + post else "," + (WrittenEntries(entries[1..]) + ("}" + post));
    FirstEntry(io, entries, post);
    var value := item.before + (Written(item.value) + (item.after + rest));
    var named := Quoted(first.name) + (first.gap + (":" + value));
    assert WrittenEntries(entries) + ("}" + post) == first.lead + named;
    BlankSkipped(first.lead, named);
    StartsWithQuote(first.name, first.gap + (":" + value));
    NothingSkipped(named);
    HeadOf(named);
    KeyRead(first.name, first.gap, value);
    BlankSkipped(item.after, rest);
    NothingSkipped(rest);
  }

  lemma KeyRead(name: seq<Piece>, gap: string, value: string)
    requires Proper(name) && Blank(gap)
    ensures KeyAt(Quoted(name) + (gap + (":" + value))) == Some((StringOf(name), value))
  {
    hide Proper, Blank, Quoted, S.QuotedString, UpToNul, MeaningAll, SkipSpaces;
    LiteralRead(name, gap + (":" + value));
    BlankSkipped(gap, ":" + value);
    NothingSkipped(":" + value);
    assert (":" + value)[1..] == value;
  }

  lemma FirstEntry(io: NumberIO, entries: seq<Entry>, post: string)
    requires entries != [] && SoundEntries(io, entries, "}" + post)
    ensures var first := entries[0];
            var item := first.item;
            var rest := if |entries| == 1 then "}" + post else "," + (WrittenEntries(entries[1..]) + ("}" + post));
            && Sound(io, item.value, item.after + rest) && Blank(item.before) && Blank(item.after)
            && Blank(first.lead) && Blank(first.gap) && Proper(first.name)
            && WrittenEntries(entries) ==
               first.lead + Quoted(first.name) + first.gap + ":"
               + (item.before + Written(item.value) + item.after)
               + (if |entries| == 1 then "" else "," + WrittenEntries(entries[1..]))
            && MeantEntries(entries) ==
               [Member(StringOf(first.name), Meant(item.value))] + MeantEntries(entries[1..])
            && SoundEntries(io, entries[1..], "}" + post)
    ensures |entries| == 1 ==> MeantEntries(entries[1..]) == []
  {
    hide *;
    var first := entries[0];
    var more := if |entries| == 1 then "" else "," + WrittenEntries(entries[1..]);
    EntriesParts(io, entries, "}" + post);
    EntryParts(io, first, more + ("}" + post));
    if |entries| == 1 {
      assert more + ("}" + post) == "}" + post;
    } else {
      assert more + ("}" + post) == "," + (WrittenEntries(entries[1..]) + ("}" + post));
    }
  }

  lemma EntriesParts(io: NumberIO, entries: seq<Entry>, post: string)
    requires entries != [] && SoundEntries(io, entries, post)
    ensures var more := if |entries| == 1 then "" else "," + WrittenEntries(entries[1..]);
            && SoundEntry(io, entries[0], more + post) && SoundEntries(io, entries[1..], post)
            && WrittenEntries(entries) == WrittenEntry(entries[0]) + more
    ensures MeantEntries(entries) ==
            [Member(StringOf(entries[0].name), Meant(entries[0].item.value))] + MeantEntries(entries[1..])
    ensures |entries| == 1 ==> MeantEntries(entries[1..]) == []
  {
    hide SoundEntry, WrittenEntry, Meant, StringOf;
  }

  lemma EntryParts(io: NumberIO, entry: Entry, post: string)
    requires SoundEntry(io, entry, post)
    ensures Blank(entry.lead) && Proper(entry.name) && Blank(entry.gap)
    ensures Blank(entry.item.before) && Blank(entry.item.after)
    ensures Sound(io, entry.item.value, entry.item.after + post)
    ensures WrittenEntry(entry) ==
            entry.lead + Quoted(entry.name) + entry.gap + ":"
            + (entry.item.before + Written(entry.item.value) + entry.item.after)
  {
    hide Blank, Sound, Written, Proper, Quoted;
  }

  /** The loop of parse_object_value over the members. */
  lemma {:induction false} EntriesRead(io: NumberIO, entries: seq<Entry>, post: string, nesting: nat, read: seq<Member>)
    requires entries != [] && SoundEntries(io, entries, "}" + post)
    requires DistinctNames(read + MeantEntries(entries))
    ensures ParseMembers(io, SkipSpaces(WrittenEntries(entries) + ("}" + post)), nesting, read) ==
            Answer(MembersWithin(MeantEntries(entries), MAX_NESTING - nesting),
                   Object(read + MeantEntries(entries)), post)
    decreases entries, 1
  {
    hide *;
    var ms, depth := MeantEntries(entries), MAX_NESTING - nesting;
    var first := Member(StringOf(entries[0].name), Meant(entries[0].item.value));
    var more := read + [first];
    EntryRead(io, entries, post, nesting, read);
    FirstMemberWithin(ms, depth);
    AnswerIs(MembersWithin(ms, depth), Object(read + ms), post);
    if |entries| == 1 {
      assert read + ms == more;
    } else {
      assert more + MeantEntries(entries[1..]) == read + ms && ms[1..] == MeantEntries(entries[1..]);
      EntriesRead(io, entries[1..], post, nesting, more);
      AnswerIs(MembersWithin(ms[1..], depth), Object(read + ms), post);
    }
  }

  /** One turn of the loop, when the name is new. */
  lemma EntryRead(io: NumberIO, entries: seq<Entry>, post: string, nesting: nat, read: seq<Member>)
    requires entries != [] && SoundEntries(io, entries, "}" + post)
    requires DistinctNames(read + MeantEntries(entries))
    ensures var first := Member(StringOf(entries[0].name), Meant(entries[0].item.value));
            && MeantEntries(entries) == [first] + MeantEntries(entries[1..])
            && SoundEntries(io, entries[1..], "}" + post) && (|entries| == 1 ==> MeantEntries(entries[1..]) == [])
            && ParseMembers(io, SkipSpaces(WrittenEntries(entries) + ("}" + post)), nesting, read) ==
               if !Within(first.value, MAX_NESTING - nesting) then None
               else if |entries| == 1 then Some((Object(read + [first]), post))
               else ParseMembers(io, SkipSpaces(WrittenEntries(entries[1..]) + ("}" + post)), nesting, read + [first])
    decreases entries, 0
  {
    hide *;
    var (item, key) := (entries[0].item, StringOf(entries[0].name));
    var rest := if |entries| == 1 then "}" + post else "," + (WrittenEntries(entries[1..]) + ("}" + post));
    var u := SkipSpaces(WrittenEntries(entries) + ("}" + post));
    EntriesStart(io, entries, post);
    BlankBefore(io, item.before, Written(item.value) + (item.after + rest), nesting);
    SpellingRead(io, item.value, item.after + rest, nesting);
    AnswerIs(Within(Meant(item.value), MAX_NESTING - nesting), Meant(item.value), item.after + rest);
    NewName(read, MeantEntries(entries));
    MemberStep(io, u, nesting, read);
    HeadOf(rest);
    ObjectFinished(post, read + [Member(key, Meant(item.value))]);
    assert |entries| != 1 ==> rest[1..] == WrittenEntries(entries[1..]) + ("}" + post);
  }

  lemma NewName(read: seq<Member>, ms: seq<Member>)
    requires ms != [] && DistinctNames(read + ms)
    ensures Find(read, ms[0].name).None?
  {
    assert (read + ms)[|read|] == ms[0];
    assert forall i :: 0 <= i < |read| ==> (read + ms)[i] == read[i];
  }

  lemma FirstMemberWithin(ms: seq<Member>, depth: int)
    requires ms != []
    ensures MembersWithin(ms, depth) <==> Within(ms[0].value, depth) && MembersWithin(ms[1..], depth)
    ensures |ms| == 1 ==> MembersWithin(ms[1..], depth)
  {
    hide Within;
    assert Within(ms[0].value, depth) && MembersWithin(ms[1..], depth) ==>
           forall i :: 0 < i < |ms| ==> ms[i] == ms[1..][i - 1];
  }

  lemma MemberStep(io: NumberIO, t: string, nesting: nat, read: seq<Member>)
    requires Head(t) != NUL && KeyAt(t).Some? && Find(read, KeyAt(t).value.0).None?
    ensures ParseMembers(io, t, nesting, read) ==
            var (key, t1) := KeyAt(t).value;
            var item := ParseValue(io, t1, nesting);
            if item.None? then None
            else
              var (v, t2) := item.value;
              var t3 := SkipSpaces(t2);
              if Head(t3) != ',' then FinishObject(t3, read + [Member(key, v)])
              else ParseMembers(io, SkipSpaces(t3[1..]), nesting, read + [Member(key, v)])
  {
    hide ParseValue, SkipSpaces, KeyAt, FinishObject, Find;
  }

  lemma ObjectFinished(post: string, ms: seq<Member>)
    requires ms != []
    ensures FinishObject("}" + post, ms) == Some((Object(ms), post))
  {
    hide SkipSpaces;
    NothingSkipped("}" + post);
    assert ("}" + post)[1..] == post;
  }

  // ----- whatever is read is a sound spelling -----

  lemma {:induction false} SpellingOf(io: NumberIO, t: string, nesting: nat) returns (gap: string, x: Syntax)
    requires ParseValue(io, t, nesting).Some?
    ensures var (v, rest) := ParseValue(io, t, nesting).value;
            Blank(gap) && t == gap + (Written(x) + rest) && Sound(io, x, rest) && Meant(x) == v
    decreases |t|, 2
  {
    hide *;
    gap := SkippedIsBlank(t);
    SkippedOnce(t);
    var u := SkipSpaces(t);
    BlankBefore(io, gap, u, nesting);
    DispatchIs(io, u, nesting);
    if Head(u) == '{' {
      x := BracesOf(io, u, nesting + 1);
    } else if Head(u) == '[' {
      x := BracketsOf(io, u, nesting + 1);
    } else {
      x := ScalarOf(io, u);
    }
  }

  lemma {:induction false} BracketsOf(io: NumberIO, t: string, nesting: nat) returns (x: Syntax)
    requires Head(t) == '[' && ParseArray(io, t, nesting).Some?
    ensures var (v, rest) := ParseArray(io, t, nesting).value;
            t == Written(x) + rest && Sound(io, x, rest) && Meant(x) == v
    decreases |t|, 1
  {
    hide *;
    ArrayStarts(io, t, nesting);
    HeadOf(t);
    var gap := SkippedIsBlank(t[1..]);
    var u := SkipSpaces(t[1..]);
    var rest := ParseArray(io, t, nesting).value.1;
    if Head(u) == ']' {
      HeadNotNul(u, ']');
      assert u == "]" + u[1..];
      EmptyBrackets(io, gap, rest);
      x := Brackets(gap, []);
      Enclosed(t, "[", gap, "", "]", rest);
    } else {
      var items := ItemsOf(io, u, nesting, []);
      Enclosed(t, "[", gap, WrittenItems(items), "]", rest);
      ItemsBehind(io, gap, items, "]" + rest);
      items := Behind(gap, items);
      FullBrackets(io, items, rest);
      x := Brackets("", items);
      assert [] + MeantItems(items) == MeantItems(items);
    }
  }

  lemma Enclosed(t: string, open: string, gap: string, inside: string, close: string, rest: string)
    requires |open| == 1 && t != "" && t[0] == open[0]
    requires t[1..] == gap + (inside + (close + rest)) || (inside == "" && t[1..] == gap + (close + rest))
    ensures t == open + (gap + inside) + close + rest
    ensures inside == "" ==> t == open + gap + close + rest
  {
    assert t == open + t[1..];
    assert inside == "" ==> gap + inside == gap && inside + (close + rest) == close + rest;
    assert open + (gap + (inside + (close + rest))) == open + (gap + inside) + close + rest;
  }

  lemma HeadNotNul(t: string, c: char)
    requires Head(t) == c && (c == ']' || c == '}' || c == ',')
    ensures t != "" && t[0] == c
  {
  }

  lemma EmptyBrackets(io: NumberIO, gap: string, post: string)
    requires Blank(gap)
    ensures var x := Brackets(gap, []);
            Sound(io, x, post) && Meant(x) == Array([]) && Written(x) == "[" + gap + "]"
  {
    hide Blank;
  }

  lemma FullBrackets(io: NumberIO, items: seq<Item>, post: string)
    requires items != [] && SoundItems(io, items, "]" + post)
    ensures var x := Brackets("", items);
            && Sound(io, x, post) && Meant(x) == Array(MeantItems(items))
            && Written(x) == "[" + WrittenItems(items) + "]"
  {
    hide SoundItems, WrittenItems, MeantItems;
  }

  /** White space taken into the first item. */
  function Behind(gap: string, items: seq<Item>): seq<Item>
    requires items != []
  {
    [Item(gap + items[0].before, items[0].value, items[0].after)] + items[1..]
  }

  lemma ItemsBehind(io: NumberIO, gap: string, items: seq<Item>, post: string)
    requires items != [] && Blank(gap) && SoundItems(io, items, post)
    ensures var more := Behind(gap, items);
            && more != [] && SoundItems(io, more, post) && MeantItems(more) == MeantItems(items)
            && WrittenItems(more) == gap + WrittenItems(items)
  {
    hide *;
    hide Behind;
    var first := Item(gap + items[0].before, items[0].value, items[0].after);
    ItemsParts(io, items, post);
    BehindIs(gap, items);
    var rest := if |items| == 1 then "" else "," + WrittenItems(items[1..]);
    ItemParts(io, items[0], rest + post);
    BlankJoined(gap, items[0].before);
    SoundItemIs(io, first, rest + post);
    ItemsJoined(io, first, items[1..], post);
  }

  lemma BehindIs(gap: string, items: seq<Item>)
    requires items != []
    ensures Behind(gap, items) == [Item(gap + items[0].before, items[0].value, items[0].after)] + items[1..]
  {
  }

  lemma ItemsParts(io: NumberIO, items: seq<Item>, post: string)
    requires items != [] && SoundItems(io, items, post)
    ensures var more := if |items| == 1 then "" else "," + WrittenItems(items[1..]);
            && SoundItem(io, items[0], more + post) && SoundItems(io, items[1..], post)
            && WrittenItems(items) == WrittenItem(items[0]) + more
    ensures MeantItems(items) == [Meant(items[0].value)] + MeantItems(items[1..])
  {
    hide SoundItem, WrittenItem, Meant;
  }

  lemma ItemParts(io: NumberIO, item: Item, post: string)
    requires SoundItem(io, item, post)
    ensures Blank(item.before) && Blank(item.after) && Sound(io, item.value, item.after + post)
    ensures WrittenItem(item) == item.before + Written(item.value) + item.after
  {
    hide Blank, Sound, Written;
  }

  lemma SoundItemIs(io: NumberIO, item: Item, post: string)
    requires Blank(item.before) && Blank(item.after) && Sound(io, item.value, item.after + post)
    ensures SoundItem(io, item, post) && WrittenItem(item) == item.before + Written(item.value) + item.after
  {
    hide Blank, Sound, Written;
  }

  /** An item in front of others, or alone. */
  lemma ItemsJoined(io: NumberIO, first: Item, rest: seq<Item>, post: string)
    requires SoundItems(io, rest, post)
    requires SoundItem(io, first, (if rest == [] then "" else "," + WrittenItems(rest)) + post)
    ensures SoundItems(io, [first] + rest, post)
    ensures MeantItems([first] + rest) == [Meant(first.value)] + MeantItems(rest)
    ensures WrittenItems([first] + rest) ==
            WrittenItem(first) + (if rest == [] then "" else "," + WrittenItems(rest))
  {
    hide SoundItem, WrittenItem, Meant;
    assert ([first] + rest)[1..] == rest;
  }

  lemma NoItems(io: NumberIO, post: string)
    ensures SoundItems(io, [], post) && WrittenItems([]) == "" && MeantItems([]) == []
    ensures SoundEntries(io, [], post) && WrittenEntries([]) == "" && MeantEntries([]) == []
  {
  }

  lemma {:induction false} ItemsOf(io: NumberIO, t: string, nesting: nat, read: seq<Json>) returns (items: seq<Item>)
    requires ParseItems(io, t, nesting, read).Some?
    ensures var (v, rest) := ParseItems(io, t, nesting, read).value;
            && items != [] && t == WrittenItems(items) + ("]" + rest) && SoundItems(io, items, "]" + rest)
            && v == Array(read + MeantItems(items))
    decreases |t|, 3
  {
    hide *;
    var rest := ParseItems(io, t, nesting, read).value.1;
    NoItemsAtEnd(io, t, nesting, read);
    ItemsStep(io, t, nesting, read);
    Shorter(io, t, nesting);
    var (v, t1) := ParseValue(io, t, nesting).value;
    var gap, x := SpellingOf(io, t, nesting);
    var after := SkippedIsBlank(t1);
    var t2 := SkipSpaces(t1);
    var item := Item(gap, x, after);
    if Head(t2) == ',' {
      HeadNotNul(t2, ',');
      var lead := SkippedIsBlank(t2[1..]);
      var more := ItemsOf(io, SkipSpaces(t2[1..]), nesting, read + [v]);
      assert t2 == "," + (lead + (WrittenItems(more) + ("]" + rest)));
      items := MoreItems(io, item, lead, more, t, t1, "]" + rest);
      assert read + [v] + MeantItems(more) == read + ([v] + MeantItems(more));
    } else {
      ArrayEnds(t2, read + [v]);
      SkippedOnce(t1);
      items := LastItem(io, item, t, t1, "]" + rest);
    }
  }

  lemma LastItem(io: NumberIO, item: Item, t: string, t1: string, post: string) returns (items: seq<Item>)
    requires Blank(item.before) && Blank(item.after) && Sound(io, item.value, t1)
    requires t == item.before + (Written(item.value) + t1) && t1 == item.after + post
    ensures items != [] && t == WrittenItems(items) + post && SoundItems(io, items, post)
    ensures MeantItems(items) == [Meant(item.value)]
  {
    hide *;
    items := [item];
    NoItems(io, post);
    assert "" + post == post;
    SoundItemIs(io, item, "" + post);
    ItemsJoined(io, item, [], post);
    assert [item] + [] == [item] && [Meant(item.value)] + [] == [Meant(item.value)];
    assert t == WrittenItem(item) + "" + post;
  }

  lemma MoreItems(io: NumberIO, item: Item, lead: string, more: seq<Item>, t: string, t1: string, post: string)
    returns (items: seq<Item>)
    requires Blank(item.before) && Blank(item.after) && Sound(io, item.value, t1)
    requires more != [] && Blank(lead) && SoundItems(io, more, post)
    requires t == item.before + (Written(item.value) + t1)
    requires t1 == item.after + ("," + (lead + (WrittenItems(more) + post)))
    ensures items != [] && t == WrittenItems(items) + post && SoundItems(io, items, post)
    ensures MeantItems(items) == [Meant(item.value)] + MeantItems(more)
  {
    hide *;
    ItemsBehind(io, lead, more, post);
    var others := Behind(lead, more);
    var behind := "," + WrittenItems(others);
    assert behind + post == "," + (lead + (WrittenItems(more) + post));
    SoundItemIs(io, item, behind + post);
    ItemsJoined(io, item, others, post);
    items := [item] + others;
    ItemText(item.before, Written(item.value), item.after, behind, post);
  }

  lemma ItemText(before: string, value: string, after: string, behind: string, post: string)
    ensures before + (value + (after + (behind + post))) == before + value + after + behind + post
  {
  }

  lemma NoItemsAtEnd(io: NumberIO, t: string, nesting: nat, read: seq<Json>)
    requires ParseItems(io, t, nesting, read).Some?
    ensures Head(t) != NUL
  {
    hide ParseValue;
  }

  lemma Shorter(io: NumberIO, t: string, nesting: nat)
    ensures ParseValue(io, t, nesting).Some? ==> |ParseValue(io, t, nesting).value.1| <= |t|
  {
    hide ParseValue;
  }

  lemma ArrayEnds(t: string, vs: seq<Json>)
    requires FinishArray(t, vs).Some?
    ensures SkipSpaces(t) != "" && SkipSpaces(t) == "]" + FinishArray(t, vs).value.1
    ensures FinishArray(t, vs).value.0 == Array(vs)
  {
    hide SkipSpaces;
  }

  lemma {:induction false} BracesOf(io: NumberIO, t: string, nesting: nat) returns (x: Syntax)
    requires Head(t) == '{' && ParseObject(io, t, nesting).Some?
    ensures var (v, rest) := ParseObject(io, t, nesting).value;
            t == Written(x) + rest && Sound(io, x, rest) && Meant(x) == v
    decreases |t|, 1
  {
    hide *;
    ObjectStarts(io, t, nesting);
    HeadOf(t);
    var gap := SkippedIsBlank(t[1..]);
    var u := SkipSpaces(t[1..]);
    var rest := ParseObject(io, t, nesting).value.1;
    if Head(u) == '}' {
      HeadNotNul(u, '}');
      assert u == "}" + u[1..];
      EmptyBraces(io, gap, rest);
      x := Braces(gap, []);
      Enclosed(t, "{", gap, "", "}", rest);
    } else {
      NoNames();
      var entries := EntriesOf(io, u, nesting, []);
      Enclosed(t, "{", gap, WrittenEntries(entries), "}", rest);
      EntriesBehind(io, gap, entries, "}" + rest);
      entries := BehindName(gap, entries);
      assert [] + MeantEntries(entries) == MeantEntries(entries);
      FullBraces(io, entries, rest);
      x := Braces("", entries);
    }
  }

  lemma NoNames()
    ensures DistinctNames([])
  {
  }

  lemma EmptyBraces(io: NumberIO, gap: string, post: string)
    requires Blank(gap)
    ensures var x := Braces(gap, []);
            Sound(io, x, post) && Meant(x) == Object([]) && Written(x) == "{" + gap + "}"
  {
    hide Blank;
  }

  lemma FullBraces(io: NumberIO, entries: seq<Entry>, post: string)
    requires entries != [] && SoundEntries(io, entries, "}" + post) && DistinctNames(MeantEntries(entries))
    ensures var x := Braces("", entries);
            && Sound(io, x, post) && Meant(x) == Object(MeantEntries(entries))
            && Written(x) == "{" + WrittenEntries(entries) + "}"
  {
    hide SoundEntries, WrittenEntries, MeantEntries, DistinctNames;
  }

  /** White space taken in front of the first name. */
  function BehindName(gap: string, entries: seq<Entry>): seq<Entry>
    requires entries != []
  {
    [entries[0].(lead := gap + entries[0].lead)] + entries[1..]
  }

  lemma EntriesBehind(io: NumberIO, gap: string, entries: seq<Entry>, post: string)
    requires entries != [] && Blank(gap) && SoundEntries(io, entries, post)
    ensures var more := BehindName(gap, entries);
            && more != [] && SoundEntries(io, more, post) && MeantEntries(more) == MeantEntries(entries)
            && WrittenEntries(more) == gap + WrittenEntries(entries)
  {
    hide *;
    var first := entries[0].(lead := gap + entries[0].lead);
    var rest := if |entries| == 1 then "" else "," + WrittenEntries(entries[1..]);
    EntriesParts(io, entries, post);
    BehindNameIs(gap, entries);
    EntryParts(io, entries[0], rest + post);
    BlankJoined(gap, entries[0].lead);
    SoundEntryIs(io, first, rest + post);
    EntriesJoined(io, first, entries[1..], post);
    LeadText(gap, WrittenEntry(entries[0]), rest);
    EntryText(gap, entries[0].lead, Quoted(first.name) + first.gap + ":" + WrittenItem(first.item));
    EntryTail(entries[0]);
    EntryTail(first);
  }

  lemma EntryTail(entry: Entry)
    ensures WrittenEntry(entry) == entry.lead + (Quoted(entry.name) + entry.gap + ":" + WrittenItem(entry.item))
  {
    hide Quoted, WrittenItem;
  }

  lemma LeadText(gap: string, entry: string, rest: string)
    ensures gap + (entry + rest) == gap + entry + rest
  {
  }

  lemma EntryText(gap: string, lead: string, rest: string)
    ensures gap + (lead + rest) == gap + lead + rest
  {
  }

  lemma BehindNameIs(gap: string, entries: seq<Entry>)
    requires entries != []
    ensures BehindName(gap, entries) == [entries[0].(lead := gap + entries[0].lead)] + entries[1..]
  {
  }

  lemma SoundEntryIs(io: NumberIO, entry: Entry, post: string)
    requires Blank(entry.lead) && Proper(entry.name) && Blank(entry.gap)
    requires Blank(entry.item.before) && Blank(entry.item.after)
    requires Sound(io, entry.item.value, entry.item.after + post)
    ensures SoundEntry(io, entry, post)
  {
    hide Blank, Sound, Proper;
  }

  lemma EntriesJoined(io: NumberIO, first: Entry, rest: seq<Entry>, post: string)
    requires SoundEntries(io, rest, post)
    requires SoundEntry(io, first, (if rest == [] then "" else "," + WrittenEntries(rest)) + post)
    ensures SoundEntries(io, [first] + rest, post)
    ensures MeantEntries([first] + rest) ==
            [Member(StringOf(first.name), Meant(first.item.value))] + MeantEntries(rest)
    ensures WrittenEntries([first] + rest) ==
            WrittenEntry(first) + (if rest == [] then "" else "," + WrittenEntries(rest))
  {
    hide SoundEntry, WrittenEntry, Meant, StringOf;
    assert ([first] + rest)[1..] == rest;
  }

  lemma {:induction false} EntriesOf(io: NumberIO, t: string, nesting: nat, read: seq<Member>)
    returns (entries: seq<Entry>)
    requires ParseMembers(io, t, nesting, read).Some? && DistinctNames(read)
    ensures var (v, rest) := ParseMembers(io, t, nesting, read).value;
            && entries != [] && t == WrittenEntries(entries) + ("}" + rest) && SoundEntries(io, entries, "}" + rest)
            && v == Object(read + MeantEntries(entries)) && DistinctNames(read + MeantEntries(entries))
    decreases |t|, 3
  {
    hide *;
    var rest := ParseMembers(io, t, nesting, read).value.1;
    NoMembersAtEnd(io, t, nesting, read);
    MembersStep(io, t, nesting, read);
    KeyShorter(t);
    var (key, t1) := KeyAt(t).value;
    Shorter(io, t1, nesting);
    var (v, t2) := ParseValue(io, t1, nesting).value;
    var name, colon := KeyOf(t);
    var before, x := SpellingOf(io, t1, nesting);
    var after := SkippedIsBlank(t2);
    var t3 := SkipSpaces(t2);
    var entry := Entry("", name, colon, Item(before, x, after));
    NameAdded(read, Member(key, v));
    PlacedBy(io, entry, t, t1, t2);
    if Head(t3) == ',' {
      HeadNotNul(t3, ',');
      var lead := SkippedIsBlank(t3[1..]);
      var more := EntriesOf(io, SkipSpaces(t3[1..]), nesting, read + [Member(key, v)]);
      assert t3 == "," + (lead + (WrittenEntries(more) + ("}" + rest)));
      entries := MoreEntries(io, entry, lead, more, t, t1, t2, "}" + rest);
      assert read + [Member(key, v)] + MeantEntries(more) == read + ([Member(key, v)] + MeantEntries(more));
    } else {
      ObjectEnds(t3, read + [Member(key, v)]);
      SkippedOnce(t2);
      entries := LastEntry(io, entry, t, t1, t2, "}" + rest);
    }
  }

  lemma NoMembersAtEnd(io: NumberIO, t: string, nesting: nat, read: seq<Member>)
    requires ParseMembers(io, t, nesting, read).Some? && DistinctNames(read)
    ensures Head(t) != NUL
  {
    hide ParseValue, KeyAt;
  }

  lemma KeyShorter(t: string)
    ensures KeyAt(t).Some? ==> |KeyAt(t).value.1| < |t|
  {
    hide KeyAt;
  }

  lemma NameAdded(read: seq<Member>, m: Member)
    requires DistinctNames(read) && Find(read, m.name).None?
    ensures DistinctNames(read + [m])
  {
    hide Find;
  }

  lemma KeyOf(t: string) returns (name: seq<Piece>, gap: string)
    requires KeyAt(t).Some?
    ensures Proper(name) && Blank(gap) && KeyAt(t).value.0 == StringOf(name)
    ensures t == Quoted(name) + (gap + (":" + KeyAt(t).value.1))
  {
    hide Proper, Blank, Quoted, S.QuotedString, UpToNul, MeaningAll, SkipSpaces;
    name := LiteralOf(t);
    gap := SkippedIsBlank(S.QuotedString(t).value.1);
    var u := SkipSpaces(S.QuotedString(t).value.1);
    assert u == ":" + u[1..];
  }

  lemma ObjectEnds(t: string, ms: seq<Member>)
    requires FinishObject(t, ms).Some?
    ensures SkipSpaces(t) != "" && SkipSpaces(t) == "}" + FinishObject(t, ms).value.1
    ensures FinishObject(t, ms).value.0 == Object(ms)
  {
    hide SkipSpaces;
  }

  ghost predicate Placed(io: NumberIO, entry: Entry, t: string, t1: string, t2: string) {
    && entry.lead == "" && Proper(entry.name) && Blank(entry.gap)
    && Blank(entry.item.before) && Blank(entry.item.after) && Sound(io, entry.item.value, t2)
    && t == Quoted(entry.name) + (entry.gap + (":" + t1))
    && t1 == entry.item.before + (Written(entry.item.value) + t2)
  }

  lemma PlacedBy(io: NumberIO, entry: Entry, t: string, t1: string, t2: string)
    requires entry.lead == "" && Proper(entry.name) && Blank(entry.gap)
    requires Blank(entry.item.before) && Blank(entry.item.after) && Sound(io, entry.item.value, t2)
    requires t == Quoted(entry.name) + (entry.gap + (":" + t1))
    requires t1 == entry.item.before + (Written(entry.item.value) + t2)
    ensures Placed(io, entry, t, t1, t2)
  {
    hide Blank, Sound, Proper, Quoted, Written;
  }

  lemma LastEntry(io: NumberIO, entry: Entry, t: string, t1: string, t2: string, post: string)
    returns (entries: seq<Entry>)
    requires Placed(io, entry, t, t1, t2) && t2 == entry.item.after + post
    ensures entries != [] && t == WrittenEntries(entries) + post && SoundEntries(io, entries, post)
    ensures MeantEntries(entries) == [Member(StringOf(entry.name), Meant(entry.item.value))]
  {
    hide *;
    entries := [entry];
    NoItems(io, post);
    assert "" + post == post;
    PlacedIs(io, entry, t, t1, t2, "", post);
    EntriesJoined(io, entry, [], post);
    assert [entry] + [] == [entry];
  }

  /** The text of an entry, with what comes behind it. */
  lemma PlacedIs(io: NumberIO, entry: Entry, t: string, t1: string, t2: string, behind: string, post: string)
    requires Placed(io, entry, t, t1, t2) && t2 == entry.item.after + (behind + post)
    ensures SoundEntry(io, entry, behind + post) && t == WrittenEntry(entry) + behind + post
  {
    hide Blank, Sound, Proper, Quoted, Written;
    var item := entry.item;
    NothingIsBlank();
    ItemText(item.before, Written(item.value), item.after, behind, post);
    NameText(Quoted(entry.name), entry.gap, WrittenItem(item), behind, post);
  }

  lemma NameText(name: string, gap: string, item: string, behind: string, post: string)
    ensures name + (gap + (":" + (item + behind + post))) == "" + name + gap + ":" + item + behind + post
  {
  }

  lemma MoreEntries(io: NumberIO, entry: Entry, lead: string, more: seq<Entry>, t: string, t1: string, t2: string,
                    post: string)
    returns (entries: seq<Entry>)
    requires Placed(io, entry, t, t1, t2)
    requires more != [] && Blank(lead) && SoundEntries(io, more, post)
    requires t2 == entry.item.after + ("," + (lead + (WrittenEntries(more) + post)))
    ensures entries != [] && t == WrittenEntries(entries) + post && SoundEntries(io, entries, post)
    ensures MeantEntries(entries) ==
            [Member(StringOf(entry.name), Meant(entry.item.value))] + MeantEntries(more)
  {
    hide *;
    EntriesBehind(io, lead, more, post);
    var others := BehindName(lead, more);
    var behind := "," + WrittenEntries(others);
    assert behind + post == "," + (lead + (WrittenEntries(more) + post));
    PlacedIs(io, entry, t, t1, t2, behind, post);
    EntriesJoined(io, entry, others, post);
    entries := [entry] + others;
  }

  // ----- the main result -----

  /** The text is white space, a sound spelling of the value, and what is left. */
  ghost predicate Spells(io: NumberIO, t: string, v: Json, rest: string) {
    exists gap, x :: Blank(gap) && t == gap + (Written(x) + rest) && Sound(io, x, rest) && Meant(x) == v
  }

  /**
   parse_value accepts exactly the texts that spell a value whose nodes lie within the nesting left,
   and yields that value and the text after it.
   */
  lemma ParsedExactlyWhen(io: NumberIO, t: string, nesting: nat, v: Json, rest: string)
    ensures ParseValue(io, t, nesting) == Some((v, rest)) <==>
            Spells(io, t, v, rest) && Within(v, MAX_NESTING - nesting)
  {
    hide *;
    hide Spells;
    if ParseValue(io, t, nesting) == Some((v, rest)) {
      var gap, x := SpellingOf(io, t, nesting);
      SpellsBy(io, t, v, rest, gap, x);
      AcceptedValue(io, t, nesting);
    }
    if Spells(io, t, v, rest) {
      var gap, x := Spelt(io, t, v, rest);
      BlankBefore(io, gap, Written(x) + rest, nesting);
      SpellingRead(io, x, rest, nesting);
      AnswerIs(Within(v, MAX_NESTING - nesting), v, rest);
    }
  }

  lemma SpellsBy(io: NumberIO, t: string, v: Json, rest: string, gap: string, x: Syntax)
    requires Blank(gap) && t == gap + (Written(x) + rest) && Sound(io, x, rest) && Meant(x) == v
    ensures Spells(io, t, v, rest)
  {
  }

  lemma Spelt(io: NumberIO, t: string, v: Json, rest: string) returns (gap: string, x: Syntax)
    requires Spells(io, t, v, rest)
    ensures Blank(gap) && t == gap + (Written(x) + rest) && Sound(io, x, rest) && Meant(x) == v
  {
    gap, x :| Blank(gap) && t == gap + (Written(x) + rest) && Sound(io, x, rest) && Meant(x) == v;
  }

  const MARK: string := [0xEF as char, 0xBB as char, 0xBF as char]

  /** A text is a spelling, after a byte-order mark or without one, and whatever follows it. */
  ghost predicate TextSpells(io: NumberIO, t: string, v: Json) {
    exists rest :: Spells(io, t, v, rest) || (MARK <= t && Spells(io, t[3..], v, rest))
  }

  /** json_parse_string yields a value for exactly the texts that spell it no deeper than 2048 levels. */
  lemma TextParsedExactlyWhen(io: NumberIO, t: string, v: Json)
    ensures ParseText(io, t) == Some(v) <==> TextSpells(io, t, v) && Within(v, 2048)
  {
    hide ParseValue, Spells, Within;
    var u := if MARK <= t then t[3..] else t;
    if ParseText(io, t) == Some(v) {
      var rest := ParseValue(io, u, 0).value.1;
      ParsedExactlyWhen(io, u, 0, v, rest);
    }
    if TextSpells(io, t, v) {
      var rest :| Spells(io, t, v, rest) || (MARK <= t && Spells(io, t[3..], v, rest));
      if Spells(io, t, v, rest) {
        NoMark(io, t, v, rest);
      }
      ParsedExactlyWhen(io, u, 0, v, rest);
    }
  }

  lemma NoMark(io: NumberIO, t: string, v: Json, rest: string)
    requires Spells(io, t, v, rest)
    ensures !(MARK <= t)
  {
    hide Sound, Written, Meant;
    var gap, x := Spelt(io, t, v, rest);
    FirstCharacter(io, x, rest);
    assert t[0] == if gap == "" then (Written(x) + rest)[0] else gap[0];
  }
}

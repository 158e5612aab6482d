/**
 The string literals of JSON as section 7 of RFC 8259 writes them, and the reading of parson.c: it
 accepts exactly these, and reads from each the bytes it stands for up to the first NUL.
 */
module JsonLiterals {
  import opened Options
  import opened CString
  import opened Alphabets
  import opened JsonStrings
  import U = Utf8

  // ----- what a literal is made of -----

  /**
   A character as itself, a letter after a backslash, the four digits of a code unit, or of the two
   code units of a surrogate pair; with each group of digits goes its value.
   */
  datatype Piece =
    | Raw(c: char)
    | Short(letter: char)
    | Unit(hex: string, value: nat)
    | Pair(lead: string, high: nat, trail: string, low: nat)

  ghost predicate SpellsHex(hex: string, value: nat) {
    && |hex| == 4
    && exists a: nat, b: nat, c: nat, d: nat ::
         && a < 16 && b < 16 && c < 16 && d < 16
         && Writes(hex[0], a) && Writes(hex[1], b) && Writes(hex[2], c) && Writes(hex[3], d)
         && value == a * 0x1000 + b * 0x100 + c * 0x10 + d
  }

  ghost predicate ProperPiece(p: Piece) {
    match p
    case Raw(c) => c as int >= 0x20 && c != '"' && c != '\\'
    case Short(letter) => letter in ['"', '\\', '/', 'b', 'f', 'n', 'r', 't']
    case Unit(hex, value) => SpellsHex(hex, value) && !(0xD800 <= value <= 0xDFFF)
    case Pair(lead, high, trail, low) =>
      SpellsHex(lead, high) && SpellsHex(trail, low) && 0xD800 <= high <= 0xDBFF && 0xDC00 <= low <= 0xDFFF
  }

  function Spelling(p: Piece): string {
    match p
    case Raw(c) => [c]
    case Short(letter) => ['\\', letter]
    case Unit(hex, _) => "\\u" + hex
    case Pair(lead, _, trail, _) => "\\u" + lead + "\\u" + trail
  }

  /** The byte a letter after a backslash stands for. */
  function ShortFor(letter: char): int {
    match letter
    case '"' => 0x22
    case '\\' => 0x5C
    case '/' => 0x2F
    case 'b' => 0x08
    case 'f' => 0x0C
    case 'n' => 0x0A
    case 'r' => 0x0D
    case 't' => 0x09
    case _ => -1
  }

  /** The bytes a piece stands for, code points in UTF-8. */
  ghost function Meaning(p: Piece): string
    requires ProperPiece(p)
  {
    match p
    case Raw(c) => [c]
    case Short(letter) => [ShortFor(letter) as char]
    case Unit(_, value) =>
      HexBounded(p.hex, value);
      U.Encode(value)
    case Pair(_, high, _, low) => U.Encode(0x1_0000 + (high - 0xD800) * 0x400 + (low - 0xDC00))
  }

  lemma HexBounded(hex: string, value: nat)
    requires SpellsHex(hex, value)
    ensures value <= 0xFFFF
  {
  }

  ghost predicate Proper(ps: seq<Piece>) {
    forall i :: 0 <= i < |ps| ==> ProperPiece(ps[i])
  }

  function SpelledAll(ps: seq<Piece>): string {
    if ps == [] then "" else Spelling(ps[0]) + SpelledAll(ps[1..])
  }

  ghost function MeaningAll(ps: seq<Piece>): string
    requires Proper(ps)
  {
    if ps == [] then "" else Meaning(ps[0]) + MeaningAll(ps[1..])
  }

  function Quoted(ps: seq<Piece>): string {
    "\"" + SpelledAll(ps) + "\""
  }

  // ----- hexadecimal digits -----

  lemma HexDigitIs(c: char, d: nat)
    requires d < 16
    ensures Writes(c, d) <==> IntOfHexDigit(c) == d
  {
    hide Writes;
    WritesIs(c, d);
  }

  lemma HexDigitsRead(hex: string, value: nat, post: string)
    requires SpellsHex(hex, value)
    ensures ParseHex4(hex + post) == Some(value)
  {
    hide IntOfHexDigit, Writes, ParseHex4;
    var t := hex + post;
    var a: nat, b: nat, c: nat, d: nat :|
      && a < 16 && b < 16 && c < 16 && d < 16
      && Writes(hex[0], a) && Writes(hex[1], b) && Writes(hex[2], c) && Writes(hex[3], d)
      && value == a * 0x1000 + b * 0x100 + c * 0x10 + d;
    HexDigitIs(hex[0], a);
    HexDigitIs(hex[1], b);
    HexDigitIs(hex[2], c);
    HexDigitIs(hex[3], d);
    assert At(t, 0) == hex[0] && At(t, 1) == hex[1] && At(t, 2) == hex[2] && At(t, 3) == hex[3];
    ParseHex4Is(t);
  }

  lemma ParseHex4Is(t: string)
    requires IntOfHexDigit(At(t, 0)) >= 0 && IntOfHexDigit(At(t, 1)) >= 0
    requires IntOfHexDigit(At(t, 2)) >= 0 && IntOfHexDigit(At(t, 3)) >= 0
    ensures ParseHex4(t) ==
            Some(IntOfHexDigit(At(t, 0)) * 0x1000 + IntOfHexDigit(At(t, 1)) * 0x100
                 + IntOfHexDigit(At(t, 2)) * 0x10 + IntOfHexDigit(At(t, 3)))
  {
    hide IntOfHexDigit;
    NulIsNoDigit();
  }

  lemma NulIsNoDigit()
    ensures IntOfHexDigit(NUL) == -1
  {
  }

  lemma HexDigitsOf(t: string)
    requires ParseHex4(t).Some?
    ensures |t| >= 4 && SpellsHex(t[..4], ParseHex4(t).value)
  {
    hide IntOfHexDigit, Writes;
    var a: nat, b: nat := IntOfHexDigit(At(t, 0)), IntOfHexDigit(At(t, 1));
    var c: nat, d: nat := IntOfHexDigit(At(t, 2)), IntOfHexDigit(At(t, 3));
    HexDigitIs(t[0], a);
    HexDigitIs(t[1], b);
    HexDigitIs(t[2], c);
    HexDigitIs(t[3], d);
    var hex := t[..4];
    assert Writes(hex[0], a) && Writes(hex[1], b) && Writes(hex[2], c) && Writes(hex[3], d);
  }

  // ----- one piece -----

  lemma ShortIs(letter: char)
    ensures ProperPiece(Short(letter)) <==> SimpleEscape(letter).Some?
    ensures ProperPiece(Short(letter)) ==> SimpleEscape(letter) == Some(ShortFor(letter) as char) && letter != NUL
    ensures letter != 'u' || SimpleEscape(letter).None?
  {
  }

  /** A round of process_string, and of skip_quotes, at a piece takes just the piece. */
  lemma PieceRead(p: Piece, post: string)
    requires ProperPiece(p)
    ensures var t := Spelling(p) + post;
            && Head(t) != NUL && Head(t) != '"'
            && ProcessOne(t) == Some((Meaning(p), post)) && SkipBody(t) == SkipBody(post)
  {
    hide ProcessOne, SkipBody, U.Encode, SpellsHex;
    match p
    case Raw(c) => PlainReadBack(c, post);
    case Short(letter) =>
      ShortIs(letter);
      LetterReadBack(letter, ShortFor(letter) as char, post);
    case Unit(hex, value) =>
      UnitRead(hex, value, post);
    case Pair(lead, high, trail, low) =>
      PairRead(lead, high, trail, low, post);
  }

  lemma UnitRead(hex: string, value: nat, post: string)
    requires ProperPiece(Unit(hex, value))
    ensures var t := "\\u" + hex + post;
            && Head(t) != NUL && Head(t) != '"'
            && ProcessOne(t) == Some((Meaning(Unit(hex, value)), post)) && SkipBody(t) == SkipBody(post)
  {
    hide ProcessOne, SkipBody, U.Encode, ParseHex4, SpellsHex;
    var t := "\\u" + hex + post;
    HexLength(hex, value);
    assert t[2..] == hex + post && t[1..][1..] == t[2..] && t[2..][4..] == post && t[1..][5..] == post;
    HexDigitsRead(hex, value, post);
    HexBounded(hex, value);
    HexSkipped(t[2..]);
    EscapeSkipped(t);
    U.EmittedBytes(value);
  }

  lemma HexLength(hex: string, value: nat)
    requires SpellsHex(hex, value)
    ensures |hex| == 4
  {
  }

  lemma PairRead(lead: string, high: nat, trail: string, low: nat, post: string)
    requires ProperPiece(Pair(lead, high, trail, low))
    ensures var t := "\\u" + lead + "\\u" + trail + post;
            && Head(t) != NUL && Head(t) != '"'
            && ProcessOne(t) == Some((Meaning(Pair(lead, high, trail, low)), post)) && SkipBody(t) == SkipBody(post)
  {
    hide *;
    hide Meaning, ProperPiece;
    var t := "\\u" + lead + "\\u" + trail + post;
    var u := "\\u" + trail + post;
    PairParts(lead, high, trail, low);
    PairText(lead, trail, post);
    HexDigitsRead(lead, high, u);
    HexDigitsRead(trail, low, post);
    HexSkipped(t[2..]);
    HexSkipped(u[2..]);
    EscapeSkipped(t);
    EscapeSkipped(u);
    PairEmitted(t[1..], high, low);
    HeadIsBackslash(t);
  }

  lemma HeadIsBackslash(t: string)
    requires t != "" && t[0] == '\\'
    ensures Head(t) != NUL && Head(t) != '"'
  {
  }

  lemma PairParts(lead: string, high: nat, trail: string, low: nat)
    requires ProperPiece(Pair(lead, high, trail, low))
    ensures SpellsHex(lead, high) && SpellsHex(trail, low) && |lead| == |trail| == 4
    ensures 0xD800 <= high <= 0xDBFF && 0xDC00 <= low <= 0xDFFF
    ensures Meaning(Pair(lead, high, trail, low)) == U.Encode(0x1_0000 + (high - 0xD800) * 0x400 + (low - 0xDC00))
  {
    hide U.Encode, SpellsHex;
    HexLength(lead, high);
    HexLength(trail, low);
  }

  lemma PairText(lead: string, trail: string, post: string)
    requires |lead| == |trail| == 4
    ensures var t, u := "\\u" + lead + "\\u" + trail + post, "\\u" + trail + post;
            && t[0] == '\\' && t[1] == 'u' && t[2..] == t[1..][1..] == lead + u && t[2..][4..] == u
            && t[1..][5] == '\\' && t[1..][6] == 'u' && t[1..][7..] == u[2..] && t[1..][11..] == post
            && u[0] == '\\' && u[1] == 'u' && u[2..] == trail + post && u[2..][4..] == post
  {
  }

  lemma PairEmitted(t: string, high: nat, low: nat)
    requires |t| >= 11 && ParseHex4(t[1..]) == Some(high)
    requires t[5] == '\\' && t[6] == 'u' && ParseHex4(t[7..]) == Some(low)
    requires 0xD800 <= high <= 0xDBFF && 0xDC00 <= low <= 0xDFFF
    ensures ParseUtf16(t) == Some((U.Encode(0x1_0000 + (high - 0xD800) * 0x400 + (low - 0xDC00)), t[11..]))
  {
    hide U.Encode, ParseHex4, Cont, Six, ParseUtf16;
    PairBytes(t, high, low);
    U.EmittedBytes(0x1_0000 + (high - 0xD800) * 0x400 + (low - 0xDC00));
  }

  lemma PairBytes(t: string, high: nat, low: nat)
    requires |t| >= 11 && ParseHex4(t[1..]) == Some(high)
    requires t[5] == '\\' && t[6] == 'u' && ParseHex4(t[7..]) == Some(low)
    requires 0xD800 <= high <= 0xDBFF && 0xDC00 <= low <= 0xDFFF
    ensures var full := 0x1_0000 + (high - 0xD800) * 0x400 + (low - 0xDC00);
            ParseUtf16(t) == Some(([(0xF0 + full / 0x4_0000 % 0x08) as char,
                                    Cont(Six(full, 0x1000)), Cont(Six(full, 0x40)), Cont(Six(full, 1))], t[11..]))
  {
    hide ParseHex4, Cont, Six;
    assert (high - 0xD800) % 0x400 == high - 0xD800 && (low - 0xDC00) % 0x400 == low - 0xDC00;
  }

  /** Whatever a round accepts is a piece. */
  lemma PieceOf(t: string) returns (p: Piece)
    requires Head(t) != NUL && Head(t) != '"' && ProcessOne(t).Some?
    ensures var (out, rest) := ProcessOne(t).value;
            ProperPiece(p) && t == Spelling(p) + rest && Meaning(p) == out
  {
    hide U.Encode, SpellsHex, ParseUtf16;
    var (out, rest) := ProcessOne(t).value;
    if Head(t) != '\\' {
      p := Raw(t[0]);
    } else if SimpleEscape(At(t, 1)).Some? {
      p := Short(t[1]);
      ShortIs(t[1]);
      assert t == ['\\', t[1]] + t[2..];
    } else {
      p := EscapeOf(t);
    }
  }

  lemma EscapeOf(t: string) returns (p: Piece)
    requires |t| >= 2 && t[0] == '\\' && t[1] == 'u' && ParseUtf16(t[1..]).Some?
    ensures var (out, rest) := ParseUtf16(t[1..]).value;
            ProperPiece(p) && t == Spelling(p) + rest && Meaning(p) == out
  {
    hide U.Encode, SpellsHex, ParseHex4;
    var u := t[2..];
    assert t[1..][1..] == u;
    HexDigitsOf(u);
    var value := ParseHex4(u).value;
    U.ParseUtf16EmitsDenoted(t[1..]);
    assert t[..2] == "\\u";
    if 0xD800 <= value <= 0xDFFF {
      assert t[1..][5] == t[6] && t[1..][6] == t[7] && t[1..][7..] == t[8..];
      HexDigitsOf(t[8..]);
      p := Pair(u[..4], value, t[8..12], ParseHex4(t[8..]).value);
      assert t[8..][..4] == t[8..12] && t[1..][11..] == t[12..];
      assert t == "\\u" + u[..4] + "\\u" + t[8..12] + t[12..];
    } else {
      p := Unit(u[..4], value);
      assert t[1..][5..] == u[4..];
      assert t == "\\u" + u[..4] + u[4..];
    }
  }

  // ----- a whole literal -----

  lemma ProperTail(ps: seq<Piece>)
    requires Proper(ps) && ps != []
    ensures ProperPiece(ps[0]) && Proper(ps[1..])
    ensures SpelledAll(ps) == Spelling(ps[0]) + SpelledAll(ps[1..])
    ensures MeaningAll(ps) == Meaning(ps[0]) + MeaningAll(ps[1..])
  {
    hide ProperPiece, Meaning, Spelling;
  }

  lemma ProperCons(p: Piece, ps: seq<Piece>)
    requires ProperPiece(p) && Proper(ps)
    ensures Proper([p] + ps)
    ensures SpelledAll([p] + ps) == Spelling(p) + SpelledAll(ps)
    ensures MeaningAll([p] + ps) == Meaning(p) + MeaningAll(ps)
  {
    hide ProperPiece, Meaning, Spelling;
    assert ([p] + ps)[1..] == ps;
  }

  lemma NoPieces()
    ensures Proper([]) && SpelledAll([]) == "" && MeaningAll([]) == ""
  {
  }

  lemma {:induction false} BodyRead(ps: seq<Piece>, post: string)
    requires Proper(ps)
    ensures var t := SpelledAll(ps) + "\"" + post;
            SkipBody(t) == Some(post) && Process(t, |SpelledAll(ps)|) == Some((MeaningAll(ps), "\"" + post))
  {
    hide *;
    var t := SpelledAll(ps) + "\"" + post;
    if ps == [] {
      NoPieces();
      assert t == "\"" + post;
      QuoteCloses(post);
    } else {
      ProperTail(ps);
      var tail := SpelledAll(ps[1..]) + "\"" + post;
      assert t == Spelling(ps[0]) + tail;
      PieceRead(ps[0], tail);
      SpellingLonger(ps[0]);
      BodyRead(ps[1..], post);
      ProcessRound(t, |SpelledAll(ps)|);
    }
  }

  lemma SpellingLonger(p: Piece)
    ensures |Spelling(p)| > 0
  {
  }

  /** Every literal made of pieces is read as the bytes they stand for, up to the first NUL. */
  lemma LiteralRead(ps: seq<Piece>, post: string)
    requires Proper(ps)
    ensures QuotedString(Quoted(ps) + post) == Some((UpToNul(MeaningAll(ps)), post))
  {
    hide *;
    var body := SpelledAll(ps) + "\"" + post;
    QuotedIs(ps);
    BodyRead(ps, post);
    assert Quoted(ps) + post == "\"" + body;
    assert ("\"" + body)[1..] == body;
    QuotedStringIs("\"" + body, post);
  }

  lemma QuotedIs(ps: seq<Piece>)
    ensures Quoted(ps) == "\"" + SpelledAll(ps) + "\""
  {
  }

  lemma QuotedStringIs(t: string, rest: string)
    requires t != "" && t[0] == '"' && SkipBody(t[1..]) == Some(rest)
    ensures |rest| + 2 <= |t|
    ensures var r := Process(t[1..], |t| - |rest| - 2);
            QuotedString(t) == if r.None? then None else Some((UpToNul(r.value.0), rest))
  {
    hide Process, SkipBody, UpToNul, SkipQuotes, NulFree, At, Head;
    SkipBodyShorter(t[1..]);
    SkipQuotesIs(t);
    assert |t[1..]| == |t| - 1;
  }

  lemma SkipQuotesIs(t: string)
    requires t != "" && t[0] == '"'
    ensures SkipQuotes(t) == SkipBody(t[1..])
  {
    hide SkipBody;
  }

  lemma SkipBodyShorter(t: string)
    ensures SkipBody(t).Some? ==> |SkipBody(t).value| < |t|
  {
    hide SkipBody;
  }

  /** Between the quotes of what process_string accepts there are pieces. */
  lemma {:induction false} BodyOf(t: string) returns (ps: seq<Piece>)
    requires SkipBody(t).Some? && Process(t, |t| - |SkipBody(t).value| - 1).Some?
    ensures Proper(ps) && t == SpelledAll(ps) + "\"" + SkipBody(t).value
    ensures Process(t, |t| - |SkipBody(t).value| - 1).value.0 == MeaningAll(ps)
    decreases |t|
  {
    hide *;
    var n := |t| - |SkipBody(t).value| - 1;
    InsideLiteral(t);
    if Head(t) == '"' {
      ps := [];
      NoPieces();
      ProcessEnds(t, n);
      QuoteFirst(t);
    } else {
      ProcessRound(t, n);
      var (out, rest) := ProcessOne(t).value;
      ProcessOneStaysInside(t);
      var p := PieceOf(t);
      var more := BodyOf(rest);
      ps := [p] + more;
      ProperCons(p, more);
      assert t == Spelling(p) + (SpelledAll(more) + "\"" + SkipBody(t).value);
    }
  }

  lemma QuoteFirst(t: string)
    requires Head(t) == '"' && SkipBody(t).Some?
    ensures t == "" + "\"" + SkipBody(t).value
  {
  }

  /** Every literal get_quoted_string accepts is made of pieces. */
  lemma LiteralOf(t: string) returns (ps: seq<Piece>)
    requires QuotedString(t).Some?
    ensures Proper(ps) && t == Quoted(ps) + QuotedString(t).value.1
    ensures QuotedString(t).value.0 == UpToNul(MeaningAll(ps))
  {
    hide *;
    QuotedStarts(t);
    ps := BodyOf(t[1..]);
    QuotedStringIs(t, SkipBody(t[1..]).value);
    QuotedIs(ps);
    assert t == "\"" + t[1..];
  }

  lemma QuotedStarts(t: string)
    requires QuotedString(t).Some?
    ensures t != "" && t[0] == '"' && SkipBody(t[1..]).Some?
    ensures var rest := SkipBody(t[1..]).value;
            Process(t[1..], |t[1..]| - |rest| - 1).Some? && |t[1..]| - |rest| - 1 == |t| - |rest| - 2
  {
    hide Process, SkipBody;
  }

  /** get_quoted_string accepts exactly the literals. */
  lemma LiteralAcceptedExactlyWhen(t: string, s: string, post: string)
    ensures QuotedString(t) == Some((s, post)) <==>
            exists ps :: Proper(ps) && t == Quoted(ps) + post && s == UpToNul(MeaningAll(ps))
  {
    hide *;
    if QuotedString(t) == Some((s, post)) {
      var ps := LiteralOf(t);
    }
    if ps :| Proper(ps) && t == Quoted(ps) + post && s == UpToNul(MeaningAll(ps)) {
      LiteralRead(ps, post);
    }
  }
}

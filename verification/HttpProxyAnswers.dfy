/** Which answers to CONNECT open the tunnel, in terms of their characters. */
module HttpProxyAnswers {
  import opened Options
  import opened CString
  import opened Alphabets
  import opened Strtoull
  import opened Numerals
  import opened HttpProxyIo

  // ----- the header -----

  predicate EmptyLineBefore(t: string, k: nat)
    requires 4 <= k <= |t|
  {
    t[k - 4..k] == "\r\n\r\n"
  }

  /** A header up to and including the first empty line, in a C string. */
  ghost predicate FirstEmptyLine(head: string) {
    && |head| >= 4 && EmptyLineBefore(head, |head|)
    && (forall k :: 4 <= k < |head| ==> !EmptyLineBefore(head, k))
    && (forall k :: 0 <= k < |head| ==> head[k] as int != 0)
  }

  /** The first line up to the status code, or what stands there: a version in two parts, and a space. */
  ghost predicate IsAnswer(head: string, a: string, b: string, code: string) {
    && FirstEmptyLine(head)
    && head == "HTTP/" + (a + ("." + (b + (" " + code))))
    && '.' !in a && ' ' !in b
  }

  lemma HeaderEndIs(head: string, tail: string)
    requires FirstEmptyLine(head)
    ensures HeaderEnd(head + tail) == Some(|head|)
    ensures NulFree(head) && (head + tail)[..|head|] == head && (head + tail)[|head|..] == tail
  {
    hide FindEnd, UpToNul;
    UpToNulSplit(head, tail);
    var seen := head + UpToNul(tail);
    assert seen[|head| - 4..|head|] == head[|head| - 4..|head|];
    FindEndIsFirst(seen, |head|);
    FindEndFinds(seen);
    forall k | 4 <= k < |head|
      ensures !EmptyLineBefore(seen, k)
    {
      assert seen[k - 4..k] == head[k - 4..k];
      assert !EmptyLineBefore(head, k);
    }
    assert EmptyLineBefore(seen, FindEnd(seen).value);
  }

  // ----- the status code -----

  lemma {:induction false} SkippedTo(a: string, t: string, c: char)
    requires c !in a && NulFree(a) && t != "" && t[0] == c
    ensures SkipTo(a + t, c) == Some(t)
  {
    if a == "" {
      assert a + t == t;
    } else {
      assert (a + t)[1..] == a[1..] + t;
      SkippedTo(a[1..], t, c);
    }
  }

  lemma StatusTextOf(head: string, a: string, b: string, code: string)
    requires IsAnswer(head, a, b, code)
    ensures StatusText(head) == Some(" " + code)
  {
    hide SkipTo, FirstEmptyLine;
    NoNulIn(head, a, b, code);
    var version := "." + (b + (" " + code));
    assert head[..5] == "HTTP/" && head[5..] == a + version;
    SkippedTo(a, version, '.');
    assert version == ("." + b) + (" " + code);
    SkippedTo("." + b, " " + code, ' ');
  }

  lemma NoNulIn(head: string, a: string, b: string, code: string)
    requires IsAnswer(head, a, b, code)
    ensures NulFree(a) && NulFree("." + b)
  {
    forall k | 0 <= k < |a|
      ensures a[k] != NUL
    {
      assert head[5 + k] == a[k];
    }
    forall k | 0 <= k < |b|
      ensures b[k] != NUL
    {
      assert head[5 + |a| + 1 + k] == b[k];
    }
  }

  /** The int that a decimal numeral ends up in: clamped to a long, and then cut to 32 bits. */
  function IntOf(value: nat): nat {
    (if value > 0x7FFF_FFFF_FFFF_FFFF then 0x7FFF_FFFF_FFFF_FFFF else value) % 0x1_0000_0000
  }

  lemma NumeralStatus(d: string, ds: seq<nat>, more: string)
    requires ds != [] && ds[0] != 0 && WritesAll(d, ds, 10) && NoDigitFirst(more, 10)
    ensures SkipSpaces(" " + (d + more)) == d + more && d != ""
    ensures var status := Strtol(" " + (d + more));
            status.Some? && (200 <= ToInt(status.value) <= 299 <==> 200 <= IntOf(ValueOf(ds, 10)) <= 299)
  {
    hide DigitRun, Positional, SkipSpaces, NoDigitFirst, ValueOf, Writes, ToInt, IntOf;
    assert Writes(d[0], ds[0]);
    DigitCharacter(d[0], ds[0]);
    SpaceSkipped(d + more);
    assert (d + more)[0] == d[0];
    DigitsRun(d, ds, more, 10);
    IntIs(ValueOf(ds, 10));
  }

  lemma IntIs(value: nat)
    ensures var long := if value > LONG_MAX then LONG_MAX else value;
            200 <= ToInt(long) <= 299 <==> 200 <= IntOf(value) <= 299
  {
  }

  lemma SpaceSkipped(t: string)
    requires t != "" && !IsSpace(t[0])
    ensures SkipSpaces(" " + t) == t
  {
    assert (" " + t)[1..] == t;
  }

  // ----- the outcome -----

  ghost predicate Opened(p: Proxy, tail: string) {
    p.state == Open && Completes(p.log) == [OpenComplete(Ok)] && Delivered(p.log) == tail
  }

  ghost predicate Refused(p: Proxy) {
    p.state == Closed && Completes(p.log) == [OpenComplete(Failed)] && Delivered(p.log) == ""
  }

  /**
   For every status code in decimal, in any pieces: the tunnel opens, and what follows the header is
   passed up, if and only if the int it ends up in lies between 200 and 299; otherwise the open fails.
   */
  lemma AnswerDecides(chunks: seq<string>, head: string, tail: string, a: string, b: string,
                      d: string, ds: seq<nat>, more: string)
    requires Flat(chunks) == head + tail && IsAnswer(head, a, b, d + more)
    requires ds != [] && ds[0] != 0 && WritesAll(d, ds, 10) && NoDigitFirst(more, 10)
    ensures var p := Feed(WAITING, chunks);
            if 200 <= IntOf(ValueOf(ds, 10)) <= 299 then Opened(p, tail) else Refused(p)
  {
    hide Feed, HeaderEnd, StatusText, SkipSpaces, Strtol, ToInt, IntOf, ValueOf, WritesAll, NoDigitFirst, Flat;
    HeaderEndIs(head, tail);
    StatusTextOf(head, a, b, d + more);
    NumeralStatus(d, ds, more);
    FragmentationIrrelevant(chunks);
  }

  lemma DecimalDigit(c: char) returns (v: nat)
    requires c in "0123456789"
    ensures v < 10 && Writes(c, v) && (v == 0 <==> c == '0') && (v == 2 <==> c == '2')
  {
    v := c as int - '0' as int;
    WritesIs(c, v);
  }

  /** In particular, of the codes of three digits exactly those that start with a 2 open the tunnel. */
  lemma CodeDecides(chunks: seq<string>, head: string, tail: string, a: string, b: string, d: string, more: string)
    requires Flat(chunks) == head + tail && IsAnswer(head, a, b, d + more)
    requires |d| == 3 && d[0] in "123456789" && d[1] in "0123456789" && d[2] in "0123456789"
    requires more == "" || more[0] !in "0123456789"
    ensures var p := Feed(WAITING, chunks);
            if d[0] == '2' then Opened(p, tail) else Refused(p)
  {
    hide IsAnswer, Feed, Writes, Flat, Opened, Refused;
    var x := DecimalDigit(d[0]);
    var y := DecimalDigit(d[1]);
    var z := DecimalDigit(d[2]);
    var ds := [x, y, z];
    assert ds[0] == x && ds[1] == y && ds[2] == z;
    CodeValue(x, y, z);
    NoDecimalDigit(more);
    AnswerDecides(chunks, head, tail, a, b, d, ds, more);
  }

  lemma CodeValue(x: nat, y: nat, z: nat)
    requires 0 < x < 10 && y < 10 && z < 10
    ensures ValueOf([x, y, z], 10) == x * 100 + y * 10 + z
    ensures 200 <= IntOf(ValueOf([x, y, z], 10)) <= 299 <==> x == 2
  {
    assert [x, y, z][..2] == [x, y] && [x, y][..1] == [x] && [x][..0] == [];
    assert ValueOf([x], 10) == x && ValueOf([x, y], 10) == x * 10 + y;
  }

  lemma IsDecimalDigit(c: char, d: nat)
    requires d < 10 && Writes(c, d)
    ensures c in "0123456789"
  {
    WritesIs(c, d);
    assert c == "0123456789"[d];
  }

  lemma NoDecimalDigit(more: string)
    requires more == "" || more[0] !in "0123456789"
    ensures NoDigitFirst(more, 10)
  {
    if more != "" {
      forall d: nat | d < 10
        ensures !Writes(more[0], d)
      {
        if Writes(more[0], d) {
          IsDecimalDigit(more[0], d);
        }
      }
    }
  }

  /** An answer that does not start with the protocol is refused. */
  lemma NoProtocolRefused(chunks: seq<string>, head: string, tail: string)
    requires Flat(chunks) == head + tail && FirstEmptyLine(head) && !("HTTP/" <= head)
    ensures Refused(Feed(WAITING, chunks))
  {
    hide Feed, HeaderEnd, StatusText, Flat, FirstEmptyLine;
    HeaderEndIs(head, tail);
    NotHttpStatus(head);
    FragmentationIrrelevant(chunks);
  }

  /** So is one with a word where the code should be. */
  lemma NoCodeRefused(chunks: seq<string>, head: string, tail: string, a: string, b: string, word: string)
    requires Flat(chunks) == head + tail && IsAnswer(head, a, b, word)
    requires word != "" && word[0] !in "0123456789+-" && !Blank(word[..1])
    ensures Refused(Feed(WAITING, chunks))
  {
    hide Feed, HeaderEnd, StatusText, Flat, Strtol;
    HeaderEndIs(head, tail);
    StatusTextOf(head, a, b, word);
    WordStatus(word);
    FragmentationIrrelevant(chunks);
  }

  lemma WordStatus(word: string)
    requires word != "" && word[0] !in "0123456789+-" && !Blank(word[..1])
    ensures SkipSpaces(" " + word) == word && Strtol(" " + word).None?
  {
    hide SkipSpaces, DigitValue;
    BlankIsSpace(word[0]);
    SpaceSkipped(word);
    NoDecimalDigit(word);
    NoDigitIs(word, 10);
  }
}

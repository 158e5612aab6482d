/** Optional results: the model's reading of a C function that may return NULL. */
module Options {
  datatype Option<+T> = None | Some(value: T)
}

/**
 C strings. A `char*` into a NUL-terminated buffer is modelled by the text from the pointer up to
 the end of the buffer, and advancing the pointer by k drops k characters. Reading the position
 just past the text yields the terminator. A character stands for one byte, read as unsigned.
 */
module CString {
  const NUL: char := '\0'

  function At(t: string, k: nat): char {
    if k < |t| then t[k] else NUL
  }

  function Head(t: string): char {
    At(t, 0)
  }

  ghost predicate NulFree(t: string) {
    forall k :: 0 <= k < |t| ==> t[k] != NUL
  }

  /** What `strlen` and every other string function see of a buffer that holds `t`. */
  function UpToNul(t: string): (r: string)
    ensures NulFree(r) && r <= t
    ensures |r| == |t| || t[|r|] == NUL
    ensures NulFree(t) ==> r == t
  {
    if Head(t) == NUL then "" else [t[0]] + UpToNul(t[1..])
  }

  /** `isspace` in the "C" locale. */
  predicate IsSpace(c: char) {
    c == ' ' || '\t' <= c <= '\r'
  }

  function SkipSpaces(t: string): (r: string)
    ensures |r| <= |t| && r == t[|t| - |r|..]
  {
    if IsSpace(Head(t)) then SkipSpaces(t[1..]) else t
  }

  /** White space, written out. */
  predicate Blank(s: string) {
    forall k :: 0 <= k < |s| ==> s[k] in [' ', '\t', '\n', 0x0B as char, 0x0C as char, '\r']
  }

  lemma BlankIsSpace(c: char)
    ensures IsSpace(c) <==> c in [' ', '\t', '\n', 0x0B as char, 0x0C as char, '\r']
  {
  }

  lemma NulIsNoSpace()
    ensures !IsSpace(NUL)
  {
  }

  /** Leading white space is what gets skipped. */
  lemma {:induction false} BlankSkipped(gap: string, t: string)
    requires Blank(gap)
    ensures SkipSpaces(gap + t) == SkipSpaces(t)
  {
    hide IsSpace;
    if gap == "" {
      assert gap + t == t;
    } else {
      BlankIsSpace(gap[0]);
      assert (gap + t)[1..] == gap[1..] + t;
      BlankSkipped(gap[1..], t);
    }
  }

  /** The loop of SKIP_WHITESPACES in parson.c and of IS_SPACE in crt_abstractions.c. */
  method SkipWhitespaces(start: string) returns (cursor: string)
    ensures cursor == SkipSpaces(start)
  {
    cursor := start;
    while IsSpace(Head(cursor))
      invariant SkipSpaces(cursor) == SkipSpaces(start)
      decreases |cursor|
    {
      cursor := cursor[1..];
    }
  }

  function IntOfHexDigit(c: char): (d: int)
    ensures -1 <= d < 16
  {
    if '0' <= c <= '9' then c as int - '0' as int
    else if 'a' <= c <= 'f' then c as int - 'a' as int + 10
    else if 'A' <= c <= 'F' then c as int - 'A' as int + 10
    else -1
  }

  function HexDigit(d: nat): char
    requires d < 16
  {
    if d < 10 then ('0' as int + d) as char else ('a' as int + d - 10) as char
  }

  /** The pieces of a text put together. */
  function Flat(parts: seq<string>): string {
    if parts == [] then "" else parts[0] + Flat(parts[1..])
  }
}

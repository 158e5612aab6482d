/** Numbers as text in crt_abstractions.c: size_tToString and strtoull_s. */
module Decimal {
  import opened CString

  const ULLONG_MAX: nat := 0xFFFF_FFFF_FFFF_FFFF

  // ----- canonical numerals -----

  function Digit(d: nat): char
    requires d < 10
  {
    ('0' as int + d) as char
  }

  /** The decimal numeral without leading zeros. */
  function Numeral(n: nat): (s: string)
    ensures |s| >= 1
  {
    if n < 10 then [Digit(n)] else Numeral(n / 10) + [Digit(n % 10)]
  }

  function Reversed(s: string): (r: string)
    ensures |r| == |s|
  {
    if s == "" then "" else Reversed(s[1..]) + [s[0]]
  }

  lemma {:induction false} ReversedAt(s: string, k: nat)
    requires k < |s|
    ensures Reversed(s)[k] == s[|s| - 1 - k]
  {
    if k < |s| - 1 {
      ReversedAt(s[1..], k);
    }
  }

  lemma {:induction false} ReversedSnoc(s: string, c: char)
    ensures Reversed(s + [c]) == [c] + Reversed(s)
  {
    if s == "" {
      assert s + [c] == [c];
    } else {
      assert (s + [c])[1..] == s[1..] + [c];
      ReversedSnoc(s[1..], c);
    }
  }

  // ----- size_tToString and unsignedIntToString -----

  /**
   It succeeds exactly when the buffer has room for the numeral and the terminator, and then holds
   just those. Otherwise only bytes of the buffer itself have changed.
   */
  method ToDecimalString(destination: array?<char>, destinationSize: nat, value: nat) returns (ok: bool)
    requires destination != null ==> destinationSize <= destination.Length
    modifies destination
    ensures ok <==> destination != null && |Numeral(value)| < destinationSize
    ensures destination != null ==> destination[destinationSize..] == old(destination[destinationSize..])
    ensures ok ==> var n := |Numeral(value)|;
                   && destination[..n] == Numeral(value) && destination[n] == NUL
                   && destination[n + 1..] == old(destination[n + 1..])
  {
    if destination == null || destinationSize < 2 {
      return false;
    }
    var pos, rest := WriteDigits(destination, destinationSize, value);
    if rest == 0 {
      destination[pos] := NUL;
      ghost var digits := destination[..pos];
      ReverseInPlace(destination, pos);
      assert destination[..pos] == Numeral(value);
      ok := true;
    } else {
      ok := false;
    }
  }

  /** The numeral of `value` when its lowest digits, in reverse, have been taken off into `digits`. */
  function Remaining(rest: nat, digits: string): string {
    if rest == 0 then Reversed(digits) else Numeral(rest) + Reversed(digits)
  }

  /** The first loop: digits from the lowest on, until none is left or the buffer is full. */
  method WriteDigits(destination: array<char>, destinationSize: nat, value: nat) returns (pos: nat, rest: nat)
    requires 2 <= destinationSize <= destination.Length
    modifies destination
    ensures 1 <= pos < destinationSize
    ensures Numeral(value) == Remaining(rest, destination[..pos])
    ensures rest > 0 ==> pos == destinationSize - 1
    ensures destination[pos..] == old(destination[pos..])
  {
    pos, rest := 0, value;
    var more := true;
    while more
      invariant 0 <= pos < destinationSize
      invariant pos == 0 ==> rest == value && more
      invariant pos > 0 ==> Numeral(value) == Remaining(rest, destination[..pos])
      invariant more ==> pos == 0 || (rest > 0 && pos < destinationSize - 1)
      invariant !more ==> pos > 0 && (rest > 0 ==> pos == destinationSize - 1)
      invariant destination[pos..] == old(destination[pos..])
      decreases destinationSize - pos, more
    {
      ghost var digits := destination[..pos];
      TakeDigit(value, rest, digits);
      destination[pos] := ('0' as int + rest % 10) as char;
      assert destination[..pos + 1] == digits + [Digit(rest % 10)];
      pos := pos + 1;
      rest := rest / 10;
      more := rest > 0 && pos < destinationSize - 1;
    }
  }

  lemma TakeDigit(value: nat, rest: nat, digits: string)
    requires if digits == "" then rest == value else rest > 0 && Numeral(value) == Remaining(rest, digits)
    ensures Numeral(value) == Remaining(rest / 10, digits + [Digit(rest % 10)])
  {
    ReversedSnoc(digits, Digit(rest % 10));
    if digits == "" {
      assert Reversed("") == "";
    }
    assert Numeral(rest) == if rest < 10 then [Digit(rest)] else Numeral(rest / 10) + [Digit(rest % 10)];
  }

  /** The second loop: swaps the digits end for end. */
  method ReverseInPlace(a: array<char>, n: nat)
    requires 1 <= n <= a.Length
    modifies a
    ensures a[..n] == Reversed(old(a[..n]))
    ensures a[n..] == old(a[n..])
  {
    ghost var was := a[..n];
    var w := 0;
    while w <= (n - 1) / 2
      invariant 0 <= w <= (n - 1) / 2 + 1
      invariant forall k :: 0 <= k < w ==> a[k] == was[n - 1 - k] && a[n - 1 - k] == was[k]
      invariant forall k :: w <= k < n - w ==> a[k] == was[k]
      invariant a[n..] == old(a[n..])
    {
      a[w], a[n - 1 - w] := a[n - 1 - w], a[w];
      w := w + 1;
    }
    forall k | 0 <= k < n
      ensures a[k] == Reversed(was)[k]
    {
      ReversedAt(was, k);
    }
    assert a[..n] == Reversed(was);
  }
}

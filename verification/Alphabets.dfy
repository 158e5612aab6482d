/** Digits as characters. */
module Alphabets {
  const LOWER := "0123456789abcdefghijklmnopqrstuvwxyz"
  const UPPER := "0123456789ABCDEFGHIJKLMNOPQRSTUVWXYZ"

  /** A character that stands for a digit, in either case. */
  predicate Writes(c: char, d: nat) {
    d < 36 && (c == LOWER[d] || c == UPPER[d])
  }

  // ----- the code of each character -----

  /** The characters from `first` on, in the order of their codes. */
  ghost predicate Consecutive(s: string, first: char) {
    forall k :: 0 <= k < |s| ==> s[k] as int == first as int + k
  }

  lemma JoinedConsecutive(a: string, b: string, first: char, next: char)
    requires Consecutive(a, first) && Consecutive(b, next) && next as int == first as int + |a|
    ensures Consecutive(a + b, first)
  {
  }

  lemma DigitsConsecutive()
    ensures Consecutive("0123456789", '0')
  {
  }

  lemma LowerConsecutive()
    ensures Consecutive("abcdefghijklmnopqrstuvwxyz", 'a')
  {
    LowerHalves();
    JoinedConsecutive("abcdefghijklm", "nopqrstuvwxyz", 'a', 'n');
    hide Consecutive;
    assert "abcdefghijklmnopqrstuvwxyz" == "abcdefghijklm" + "nopqrstuvwxyz";
  }

  lemma LowerHalves()
    ensures Consecutive("abcdefghijklm", 'a') && Consecutive("nopqrstuvwxyz", 'n')
  {
  }

  lemma UpperConsecutive()
    ensures Consecutive("ABCDEFGHIJKLMNOPQRSTUVWXYZ", 'A')
  {
    UpperHalves();
    JoinedConsecutive("ABCDEFGHIJKLM", "NOPQRSTUVWXYZ", 'A', 'N');
    hide Consecutive;
    assert "ABCDEFGHIJKLMNOPQRSTUVWXYZ" == "ABCDEFGHIJKLM" + "NOPQRSTUVWXYZ";
  }

  lemma UpperHalves()
    ensures Consecutive("ABCDEFGHIJKLM", 'A') && Consecutive("NOPQRSTUVWXYZ", 'N')
  {
  }

  lemma LowerParts()
    ensures LOWER == "0123456789" + "abcdefghijklmnopqrstuvwxyz" && |LOWER| == 36
  {
  }

  lemma UpperParts()
    ensures UPPER == "0123456789" + "ABCDEFGHIJKLMNOPQRSTUVWXYZ" && |UPPER| == 36
  {
  }

  lemma PartAt(digits: string, letters: string, first: char, d: nat)
    requires |digits| == 10 && d < 10 + |letters|
    requires Consecutive(digits, '0') && Consecutive(letters, first)
    ensures (digits + letters)[d] as int == if d < 10 then '0' as int + d else first as int + d - 10
  {
  }

  /** The digit a character stands for: its place in the alphabet, and none for any other character. */
  lemma WritesIs(c: char, d: nat)
    requires d < 36
    ensures Writes(c, d) <==>
            || (d < 10 && c as int == '0' as int + d)
            || (d >= 10 && (c as int == 'a' as int + d - 10 || c as int == 'A' as int + d - 10))
  {
    hide Consecutive;
    DigitsConsecutive();
    LowerConsecutive();
    UpperConsecutive();
    PartAt("0123456789", "abcdefghijklmnopqrstuvwxyz", 'a', d);
    PartAt("0123456789", "ABCDEFGHIJKLMNOPQRSTUVWXYZ", 'A', d);
    LowerParts();
    UpperParts();
  }

  // ----- the alphabets of RFC 4648 -----

  const BASE64 := "ABCDEFGHIJKLMNOPQRSTUVWXYZ" + ("abcdefghijklmnopqrstuvwxyz" + ("0123456789" + "+/"))
  const BASE32 := "abcdefghijklmnopqrstuvwxyz" + "234567"

  lemma JoinedAt(a: string, b: string, first: char, v: nat)
    requires Consecutive(a, first) && v < |a| + |b|
    ensures if v < |a| then (a + b)[v] as int == first as int + v else (a + b)[v] == b[v - |a|]
  {
  }

  lemma Base64At(v: nat)
    requires v < 64
    ensures BASE64[v] as int ==
            if v < 26 then 'A' as int + v
            else if v < 52 then 'a' as int + (v - 26)
            else if v < 62 then '0' as int + (v - 52)
            else if v == 62 then '+' as int
            else '/' as int
  {
    hide Consecutive;
    var u, l, d := "ABCDEFGHIJKLMNOPQRSTUVWXYZ", "abcdefghijklmnopqrstuvwxyz", "0123456789";
    UpperConsecutive();
    LowerConsecutive();
    DigitsConsecutive();
    JoinedAt(u, l + (d + "+/"), 'A', v);
    if v >= 26 {
      JoinedAt(l, d + "+/", 'a', v - 26);
      if v >= 52 {
        JoinedAt(d, "+/", '0', v - 52);
      }
    }
  }

  lemma Base32At(v: nat)
    requires v < 32
    ensures BASE32[v] as int == if v < 26 then 'a' as int + v else '2' as int + (v - 26)
  {
    LowerConsecutive();
    hide Consecutive;
    JoinedAt("abcdefghijklmnopqrstuvwxyz", "234567", 'a', v);
    if v >= 26 {
      TwoToSeven();
    }
  }

  lemma TwoToSeven()
    ensures forall k :: 0 <= k < 6 ==> "234567"[k] as int == '2' as int + k
  {
  }
}

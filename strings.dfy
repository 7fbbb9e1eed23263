/**
 * String and integer helpers the controllers rely on: ordinal substring search
 * (`string.Contains`), lower-casing (`ToLower`), decimal printing of ids (`int.ToString`)
 * and C#'s unchecked 32-bit arithmetic.
 */
module Strings {

  /** `s` occurs in `t` starting at offset `i`. */
  predicate OccursAt(s: string, t: string, i: int) {
    0 <= i && i + |s| <= |t| && t[i..i + |s|] == s
  }

  /** `t.Contains(s)` with ordinal comparison, by scanning left to right. */
  function Contains(t: string, s: string): (b: bool)
    ensures b <==> exists i :: OccursAt(s, t, i)
    decreases |t|
  {
    if |s| > |t| then
      assert forall i :: !OccursAt(s, t, i);
      false
    else if t[..|s|] == s then
      assert OccursAt(s, t, 0);
      true
    else
      var rest := Contains(t[1..], s);
      assert forall i :: OccursAt(s, t[1..], i) <==> OccursAt(s, t, i + 1) by {
        forall i ensures OccursAt(s, t[1..], i) <==> OccursAt(s, t, i + 1) {
          if 0 <= i && i + |s| <= |t[1..]| {
            assert t[1..][i..i + |s|] == t[i + 1..i + 1 + |s|];
          }
        }
      }
      assert forall i :: OccursAt(s, t, i) ==> i > 0;
      assert rest ==> exists i :: OccursAt(s, t, i) by {
        if rest {
          var i :| OccursAt(s, t[1..], i);
          assert OccursAt(s, t, i + 1);
        }
      }
      assert (exists i :: OccursAt(s, t, i)) ==> rest by {
        if exists i :: OccursAt(s, t, i) {
          var i :| OccursAt(s, t, i);
          assert OccursAt(s, t[1..], i - 1);
        }
      }
      rest
  }

  /** Every string contains the empty string, so an empty query matches everything. */
  lemma ContainsEmpty(t: string)
    ensures Contains(t, "")
  {
    assert OccursAt("", t, 0);
  }

  function LowerChar(c: char): char {
    if 'A' <= c <= 'Z' then (c as int + 32) as char else c
  }

  /** `ToLower()`, restricted to ASCII letters. */
  function ToLower(s: string): (r: string)
    ensures |r| == |s|
    ensures forall i :: 0 <= i < |s| ==> r[i] == LowerChar(s[i])
  {
    seq(|s|, i requires 0 <= i < |s| => LowerChar(s[i]))
  }

  /** Exactly the ASCII spellings of `word` in any mix of upper and lower case lower-case to it. */
  lemma ToLowerEqualsIff(s: string, word: string)
    requires forall i :: 0 <= i < |word| ==> 'a' <= word[i] <= 'z'
    ensures ToLower(s) == word <==>
      |s| == |word| && forall i :: 0 <= i < |s| ==> s[i] == word[i] || s[i] as int == word[i] as int - 32
  {
    if |s| == |word| && forall i :: 0 <= i < |s| ==> s[i] == word[i] || s[i] as int == word[i] as int - 32 {
      assert forall i :: 0 <= i < |s| ==> ToLower(s)[i] == word[i];
    }
  }

  const Int32Min: int := -0x8000_0000
  const Int32Max: int := 0x7FFF_FFFF

  /** A C# `int`. */
  type Int32 = x: int | Int32Min <= x <= Int32Max

  /** The value unchecked C# arithmetic produces for the mathematical result `x`. */
  function Wrap32(x: int): (r: Int32)
    ensures Int32Min <= x <= Int32Max ==> r == x
    ensures (x - r) % 0x1_0000_0000 == 0
  {
    (x - Int32Min) % 0x1_0000_0000 + Int32Min
  }

  /** A paging offset `(pageNo - 1) * pageSize` as 32-bit C# arithmetic computes it. */
  function PageOffset(pageNo: Int32, pageSize: Int32): Int32 {
    Wrap32((pageNo - 1) * pageSize)
  }

  /** MySQL takes `LIMIT` and `OFFSET` as non-negative integers: a query whose offset or size
    * is negative is refused, and the exception makes the reply a 500. */
  predicate PageRefused(offset: int, size: int) {
    offset < 0 || size < 0
  }

  function DigitChar(d: nat): char
    requires d < 10
  {
    ('0' as int + d) as char
  }

  /** `n.ToString()` for a non-negative id: its decimal digits, most significant first. */
  function NatToString(n: nat): (s: string)
    ensures |s| >= 1
    ensures n >= 10 ==> |s| >= 2
    ensures forall i :: 0 <= i < |s| ==> '0' <= s[i] <= '9'
  {
    if n < 10 then [DigitChar(n)] else NatToString(n / 10) + [DigitChar(n % 10)]
  }

  /** Distinct ids print differently, so a token names at most one id. */
  lemma {:induction false} NatToStringInjective(m: nat, n: nat)
    requires NatToString(m) == NatToString(n)
    ensures m == n
  {
    var sm, sn := NatToString(m), NatToString(n);
    if m < 10 && n < 10 {
      assert sm[0] == DigitChar(m) && sn[0] == DigitChar(n);
    } else if m >= 10 && n >= 10 {
      assert sm[|sm| - 1] == DigitChar(m % 10);
      assert sn[|sn| - 1] == DigitChar(n % 10);
      assert sm[..|sm| - 1] == NatToString(m / 10);
      assert sn[..|sn| - 1] == NatToString(n / 10);
      NatToStringInjective(m / 10, n / 10);
    }
  }
}

/** The JavaScript string built-ins the dashboard relies on, over `string` = `seq<char>`:
    `toLowerCase` (ASCII letters only), `startsWith`, `endsWith`, `includes`, the
    default ordering used by `Array.prototype.sort`, and decimal digit strings. */
module Text {

  /* ---------------------------------------------------------------------------
     Lower-casing
     --------------------------------------------------------------------------- */

  predicate IsUpper(c: char) {
    'A' <= c <= 'Z'
  }

  /** `toLowerCase` on one character, restricted to the ASCII letters. */
  function LowerChar(c: char): (r: char)
    ensures !IsUpper(r)
    ensures !IsUpper(c) ==> r == c
    ensures IsUpper(c) ==> 'a' <= r <= 'z' && r as int - c as int == 'a' as int - 'A' as int
  {
    if IsUpper(c) then (c as int - 'A' as int + 'a' as int) as char else c
  }

  /** `toLowerCase` on a string: same length, no upper-case letter left, and every
      character that was not an upper-case letter kept in place. */
  function Lower(s: string): (r: string)
    ensures |r| == |s|
    ensures forall i :: 0 <= i < |r| ==> !IsUpper(r[i])
    ensures forall i :: 0 <= i < |s| && !IsUpper(s[i]) ==> r[i] == s[i]
    ensures forall i :: 0 <= i < |s| && IsUpper(s[i]) ==> r[i] as int - s[i] as int == 'a' as int - 'A' as int
  {
    seq(|s|, i requires 0 <= i < |s| => LowerChar(s[i]))
  }

  /** Lower-casing twice is lower-casing once. */
  lemma LowerIdempotent(s: string)
    ensures Lower(Lower(s)) == Lower(s)
  {
  }

  /** A string with no upper-case letter is its own lower-case form. */
  lemma LowerOfLowerCase(s: string)
    requires forall i :: 0 <= i < |s| ==> !IsUpper(s[i])
    ensures Lower(s) == s
  {
  }

  /* ---------------------------------------------------------------------------
     startsWith / endsWith / includes
     --------------------------------------------------------------------------- */

  /** `s.startsWith(p)`, compared character by character from the front. */
  function StartsWith(s: string, p: string): (r: bool)
    ensures r <==> |p| <= |s| && s[..|p|] == p
  {
    if |p| == 0 then true
    else if |s| == 0 then false
    else s[0] == p[0] && StartsWith(s[1..], p[1..])
  }

  /** `s.endsWith(p)`, compared character by character from the back. */
  function EndsWith(s: string, p: string): (r: bool)
    ensures r <==> |p| <= |s| && s[|s| - |p|..] == p
  {
    if |p| == 0 then true
    else if |s| == 0 then false
    else s[|s| - 1] == p[|p| - 1] && EndsWith(s[..|s| - 1], p[..|p| - 1])
  }

  /** `endsWith` of a lower-cased pattern, stated with the original pattern's length. */
  lemma EndsWithLowered(s: string, value: string)
    ensures EndsWith(s, Lower(value)) <==> |value| <= |s| && s[|s| - |value|..] == Lower(value)
  {
    var p := Lower(value);
    assert |p| == |value|;
  }

  /** `p` occurs in `s` starting at index `i`. */
  ghost predicate OccursAt(s: string, p: string, i: int) {
    0 <= i && i + |p| <= |s| && s[i..i + |p|] == p
  }

  /** `s.includes(p)`: try every start position from the left. */
  function Includes(s: string, p: string): (r: bool)
    ensures r <==> exists i :: OccursAt(s, p, i)
  {
    if StartsWith(s, p) then
      assert OccursAt(s, p, 0);
      true
    else if |s| == 0 then
      false
    else
      OccurrenceShift(s, p);
      Includes(s[1..], p)
  }

  /** When `p` is not a prefix of a non-empty `s`, it occurs in `s` exactly when it
      occurs in `s` without its first character. */
  lemma OccurrenceShift(s: string, p: string)
    requires |s| > 0 && !(|p| <= |s| && s[..|p|] == p)
    ensures (exists i :: OccursAt(s, p, i)) <==> (exists i :: OccursAt(s[1..], p, i))
  {
    forall i | OccursAt(s[1..], p, i)
      ensures OccursAt(s, p, i + 1)
    {
      assert s[i + 1..i + 1 + |p|] == s[1..][i..i + |p|];
    }
    forall i | OccursAt(s, p, i)
      ensures OccursAt(s[1..], p, i - 1)
    {
      assert i != 0;
      assert s[1..][i - 1..i - 1 + |p|] == s[i..i + |p|];
    }
  }

  /** Equal strings start with, and end with, each other. */
  lemma EqualStartsAndEnds(s: string, p: string)
    requires s == p
    ensures StartsWith(s, p) && EndsWith(s, p)
  {
  }

  /** A prefix is included. */
  lemma StartsWithIncludes(s: string, p: string)
    requires StartsWith(s, p)
    ensures Includes(s, p)
  {
    assert OccursAt(s, p, 0);
  }

  /** A suffix is included. */
  lemma EndsWithIncludes(s: string, p: string)
    requires EndsWith(s, p)
    ensures Includes(s, p)
  {
    assert OccursAt(s, p, |s| - |p|);
  }

  /* ---------------------------------------------------------------------------
     The default sort order: lexicographic on character codes
     --------------------------------------------------------------------------- */

  /** `a` sorts strictly before `b`: a proper prefix comes first, otherwise the first
      differing character decides. */
  predicate Below(a: string, b: string)
    ensures Below(a, b) ==> a != b
    ensures |a| < |b| && b[..|a|] == a ==> Below(a, b)
  {
    if |a| == 0 then |b| > 0
    else if |b| == 0 then false
    else a[0] < b[0] || (a[0] == b[0] && Below(a[1..], b[1..]))
  }

  lemma {:induction false} BelowIrreflexive(a: string)
    ensures !Below(a, a)
  {
    if |a| > 0 {
      BelowIrreflexive(a[1..]);
    }
  }

  lemma {:induction false} BelowTransitive(a: string, b: string, c: string)
    requires Below(a, b) && Below(b, c)
    ensures Below(a, c)
  {
    if |a| > 0 && a[0] == b[0] && b[0] == c[0] {
      BelowTransitive(a[1..], b[1..], c[1..]);
    }
  }

  /** Two different strings are ordered one way or the other. */
  lemma {:induction false} BelowTotal(a: string, b: string)
    requires a != b
    ensures Below(a, b) || Below(b, a)
  {
    if |a| > 0 && |b| > 0 && a[0] == b[0] {
      assert a == [a[0]] + a[1..] && b == [b[0]] + b[1..];
      BelowTotal(a[1..], b[1..]);
    }
  }

  lemma {:induction false} BelowAsymmetric(a: string, b: string)
    requires Below(a, b)
    ensures !Below(b, a)
  {
    if |a| > 0 && |b| > 0 && a[0] == b[0] {
      BelowAsymmetric(a[1..], b[1..]);
    }
  }

  /* ---------------------------------------------------------------------------
     Decimal digit strings
     --------------------------------------------------------------------------- */

  predicate IsDigit(c: char) {
    '0' <= c <= '9'
  }

  predicate AllDigits(s: string) {
    forall i :: 0 <= i < |s| ==> IsDigit(s[i])
  }

  function DigitChar(d: nat): (c: char)
    requires d < 10
    ensures IsDigit(c) && c as int - '0' as int == d
  {
    ('0' as int + d) as char
  }

  /** The value of a string of decimal digits, most significant first. */
  function DigitsValue(s: string): nat
    requires AllDigits(s)
  {
    if |s| == 0 then 0
    else DigitsValue(s[..|s| - 1]) * 10 + (s[|s| - 1] as int - '0' as int)
  }

  /** The shortest decimal spelling of `n`. */
  function NatToDecimal(n: nat): (s: string)
    ensures |s| > 0 && AllDigits(s)
    ensures DigitsValue(s) == n
    ensures |s| > 1 ==> s[0] != '0'
  {
    if n < 10 then [DigitChar(n)]
    else
      var s := NatToDecimal(n / 10) + [DigitChar(n % 10)];
      assert s[..|s| - 1] == NatToDecimal(n / 10);
      s
  }
}

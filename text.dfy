/**
 * The string operations the cleanup script relies on: `str.lower()`,
 * `str.startswith`, substring containment (`needle in hay`) and `str.rfind`.
 * Lower-casing is modelled on ASCII letters.
 */
module Text {

  predicate IsUpper(c: char) {
    'A' <= c <= 'Z'
  }

  predicate IsDigit(c: char) {
    '0' <= c <= '9'
  }

  /** The value of an ASCII decimal digit, as `int()` reads it. */
  function DigitValue(c: char): (v: nat)
    requires IsDigit(c)
    ensures v < 10
  {
    c as int - '0' as int
  }

  /** One character of `str.lower()`: upper-case letters map to lower case, all else stays. */
  function Lower(c: char): (r: char)
    ensures !IsUpper(r)
    ensures IsUpper(c) ==> r as int == c as int + 32
    ensures !IsUpper(c) ==> r == c
  {
    if IsUpper(c) then (c as int - 'A' as int + 'a' as int) as char else c
  }

  /** `s.lower()`: the same length, each character lowered in place. */
  function LowerStr(s: string): (r: string)
    ensures |r| == |s|
    ensures forall i :: 0 <= i < |s| ==> r[i] == Lower(s[i])
  {
    seq(|s|, i requires 0 <= i < |s| => Lower(s[i]))
  }

  predicate NoUpper(s: string) {
    forall i :: 0 <= i < |s| ==> !IsUpper(s[i])
  }

  /** A lowered string has no upper-case letter, and lowering it again changes nothing. */
  lemma LowerStrIdempotent(s: string)
    ensures NoUpper(LowerStr(s))
    ensures LowerStr(LowerStr(s)) == LowerStr(s)
  {
  }

  /** Lowering leaves a string with no upper-case letter as it is. */
  lemma LowerStrOfNoUpper(s: string)
    requires NoUpper(s)
    ensures LowerStr(s) == s
  {
  }

  /** Lowering works character by character, so it distributes over concatenation. */
  lemma LowerStrConcat(a: string, b: string)
    ensures LowerStr(a + b) == LowerStr(a) + LowerStr(b)
  {
  }

  /** `s.startswith(prefix)`. */
  predicate StartsWith(s: string, prefix: string) {
    prefix <= s
  }

  /**
   * `needle in hay`: tries each start position from the left; true exactly
   * when some position of `hay` begins with `needle`.
   */
  function Contains(hay: string, needle: string): (b: bool)
    ensures b <==> exists k :: 0 <= k <= |hay| && needle <= hay[k..]
    decreases |hay|
  {
    if needle <= hay then
      assert needle <= hay[0..];
      true
    else if hay == [] then false
    else
      var b := Contains(hay[1..], needle);
      assert forall k :: 1 <= k <= |hay| ==> hay[1..][k - 1..] == hay[k..];
      b
  }

  /** The empty string is in every string. */
  lemma ContainsEmpty(hay: string)
    ensures Contains(hay, "")
  {
    assert "" <= hay[0..];
  }

  /**
   * `s.rfind(c)`: the index of the last occurrence of `c` in `s`, or -1 when
   * `c` does not occur.
   */
  function RFind(s: string, c: char): (i: int)
    ensures -1 <= i < |s|
    ensures i >= 0 ==> s[i] == c
    ensures forall j :: i < j < |s| ==> s[j] != c
  {
    if |s| == 0 then -1
    else if s[|s| - 1] == c then |s| - 1
    else RFind(s[..|s| - 1], c)
  }
}

/** ASCII character classes and case folding, as used by SQLite's LIKE and
    LOWER(), by the `\w`/`\b` classes of the regular expressions, and by
    Python's str.isdigit/int on the menu input. */
module Text {

  predicate IsUpper(c: char) { 'A' <= c <= 'Z' }

  /** ASCII lower-casing; every other character is left alone. */
  function Lower(c: char): (d: char)
    ensures !IsUpper(d)
    ensures !IsUpper(c) ==> d == c
    ensures IsUpper(c) ==> d as int == c as int + 32
  {
    if IsUpper(c) then (c as int + 32) as char else c
  }

  function LowerStr(s: string): (r: string)
    ensures |r| == |s|
    ensures forall i :: 0 <= i < |s| ==> r[i] == Lower(s[i])
  {
    seq(|s|, i requires 0 <= i < |s| => Lower(s[i]))
  }

  /** Equal up to ASCII case. */
  predicate EqCI(a: string, b: string) {
    |a| == |b| && forall i :: 0 <= i < |a| ==> Lower(a[i]) == Lower(b[i])
  }

  /** `kw` occurs in `s` at position `i`, ignoring ASCII case. */
  predicate OccursAt(s: string, kw: string, i: int) {
    0 <= i && i + |kw| <= |s| && EqCI(s[i..i + |kw|], kw)
  }

  /** `s` contains `kw` as a substring, ignoring ASCII case. */
  predicate ContainsCI(s: string, kw: string) {
    exists i | 0 <= i <= |s| - |kw| :: OccursAt(s, kw, i)
  }

  lemma LowerIdempotent(c: char)
    ensures Lower(Lower(c)) == Lower(c)
  {
  }

  /** `\w`: ASCII letters, digits and the underscore. */
  predicate IsWordChar(c: char) {
    ('a' <= c <= 'z') || ('A' <= c <= 'Z') || ('0' <= c <= '9') || c == '_'
  }

  /** The ASCII characters str.split() separates on: space, tab, the line
      and form feeds, carriage return, and the four separators 28 to 31. */
  predicate IsSpace(c: char) {
    c == ' ' || 9 <= c as int <= 13 || 28 <= c as int <= 31
  }

  /** A piece cut out of `s` occurs in `s` where it was cut. */
  lemma SliceOccurs(s: string, i: nat, j: nat)
    requires i <= j <= |s|
    ensures OccursAt(s, s[i..j], i)
    ensures ContainsCI(s, s[i..j])
  {
    assert i <= |s| - |s[i..j]|;
    assert s[i..i + |s[i..j]|] == s[i..j];
  }

  /** `s.lstrip()`: the suffix left after the leading whitespace. */
  function TrimLeft(s: string): (r: string)
    ensures |r| <= |s| && r == s[|s| - |r|..]
    ensures forall i :: 0 <= i < |s| - |r| ==> IsSpace(s[i])
    ensures r != [] ==> !IsSpace(r[0])
  {
    if s != [] && IsSpace(s[0]) then
      var r := TrimLeft(s[1..]);
      assert s[1..][|s| - 1 - |r|..] == s[|s| - |r|..];
      r
    else s
  }

  /** `s.rstrip()`: the prefix left before the trailing whitespace. */
  function TrimRight(s: string): (r: string)
    ensures |r| <= |s| && r == s[..|r|]
    ensures forall i :: |r| <= i < |s| ==> IsSpace(s[i])
    ensures r != [] ==> !IsSpace(r[|r| - 1])
  {
    if s != [] && IsSpace(s[|s| - 1]) then
      var r := TrimRight(s[..|s| - 1]);
      assert s[..|s| - 1][..|r|] == s[..|r|];
      r
    else s
  }

  /** `s.strip()`: a whitespace-only line strips to nothing, and otherwise
      what is left starts and ends with a non-whitespace character. */
  function Strip(s: string): (r: string)
    ensures r == [] <==> forall i :: 0 <= i < |s| ==> IsSpace(s[i])
    ensures r != [] ==> !IsSpace(r[0]) && !IsSpace(r[|r| - 1])
  {
    var l := TrimLeft(s);
    var r := TrimRight(l);
    assert l != [] ==> l[0] == s[|s| - |l|];
    assert r != [] ==> r[0] == l[0];
    r
  }

  predicate IsDigit(c: char) { '0' <= c <= '9' }

  /** str.isdigit on ASCII input: non-empty and only digits. */
  predicate IsDigits(s: string) {
    |s| > 0 && forall i :: 0 <= i < |s| ==> IsDigit(s[i])
  }

  /** int() of a digit string (leading zeros allowed). */
  function ParseNat(s: string): (n: nat)
    requires forall i :: 0 <= i < |s| ==> IsDigit(s[i])
    ensures |s| == 1 ==> n == s[0] as int - '0' as int
    decreases |s|
  {
    if s == [] then 0
    else
      assert IsDigit(s[|s| - 1]);
      ParseNat(s[..|s| - 1]) * 10 + (s[|s| - 1] as int - '0' as int)
  }
}

/**
 * Character classes of Python's `re` module as the discovery regex uses them,
 * maximal runs of a class, and ASCII lower-casing.
 */
module Text {

  /** `\d`, restricted to the ASCII digits. */
  predicate IsDigit(c: char) {
    '0' <= c <= '9'
  }

  /** `\s` in a str pattern: exactly the characters `str.isspace` accepts. */
  predicate IsSpace(c: char) {
    || '\t' <= c <= '\r'
    || '\U{1c}' <= c <= '\U{1f}'
    || c == ' '
    || c == '\U{85}'
    || c == '\U{a0}'
    || c == '\U{1680}'
    || '\U{2000}' <= c <= '\U{200a}'
    || c == '\U{2028}'
    || c == '\U{2029}'
    || c == '\U{202f}'
    || c == '\U{205f}'
    || c == '\U{3000}'
  }

  /** A character of an IP group: `\d` or a dot. */
  predicate IsDigitOrDot(c: char) {
    IsDigit(c) || c == '.'
  }

  /** `.` without DOTALL: anything but a line feed. */
  predicate NotNewline(c: char) {
    c != '\n'
  }

  /** The class `[0-9a-fA-F:]`. */
  predicate IsHexOrColon(c: char) {
    IsDigit(c) || 'a' <= c <= 'f' || 'A' <= c <= 'F' || c == ':'
  }

  /** The same class after lower-casing: `[0-9a-f:]`. */
  predicate IsLowerHexOrColon(c: char) {
    IsDigit(c) || 'a' <= c <= 'f' || c == ':'
  }

  /** Every character of `s[i..j]` is in class `p`. */
  predicate AllIn(s: string, i: nat, j: nat, p: char -> bool)
    requires i <= j <= |s|
  {
    forall k :: i <= k < j ==> p(s[k])
  }

  /** Length of the longest run of class `p` starting at `i`: what a greedy `p+` or `p*` first tries. */
  function Span(s: string, i: nat, p: char -> bool): (n: nat)
    requires i <= |s|
    ensures i + n <= |s|
    ensures AllIn(s, i, i + n, p)
    ensures i + n == |s| || !p(s[i + n])
    decreases |s| - i
  {
    if i == |s| || !p(s[i]) then 0 else 1 + Span(s, i + 1, p)
  }

  /** No run of class `p` from `i` is longer than the maximal one. */
  lemma SpanIsLongest(s: string, i: nat, n: nat, p: char -> bool)
    requires i + n <= |s|
    requires AllIn(s, i, i + n, p)
    ensures n <= Span(s, i, p)
  {
  }

  /** A class holds over a concatenation when it holds over both parts. */
  lemma AllInConcat(x: string, y: string, p: char -> bool)
    requires AllIn(x, 0, |x|, p) && AllIn(y, 0, |y|, p)
    ensures AllIn(x + y, 0, |x + y|, p)
  {
  }

  /** A class that lower-casing respects holds over a stretch of `Lower(s)` exactly when it holds over `s`. */
  lemma AllInUnderLower(s: string, i: nat, j: nat, p: char -> bool)
    requires i <= j <= |s|
    requires forall c: char :: p(LowerChar(c)) == p(c)
    ensures AllIn(Lower(s), i, j, p) <==> AllIn(s, i, j, p)
  {
    assert forall k :: i <= k < j ==> p(Lower(s)[k]) == p(s[k]);
  }

  /** Python's `str.lower` on one character, for the ASCII letters. */
  function LowerChar(c: char): (d: char)
    ensures 'A' <= c <= 'Z' ==> d as int == c as int + 32
    ensures !('A' <= c <= 'Z') ==> d == c
  {
    if 'A' <= c <= 'Z' then (c as int + 32) as char else c
  }

  /** Python's `str.lower` (ASCII letters), applied character by character. */
  function Lower(s: string): (r: string)
    ensures |r| == |s|
    ensures forall i :: 0 <= i < |s| ==> r[i] == LowerChar(s[i])
  {
    seq(|s|, i requires 0 <= i < |s| => LowerChar(s[i]))
  }

  /** Lower-casing leaves no upper-case ASCII letter behind and is idempotent. */
  lemma LowerIsIdempotent(s: string)
    ensures forall i :: 0 <= i < |s| ==> !('A' <= Lower(s)[i] <= 'Z')
    ensures Lower(Lower(s)) == Lower(s)
  {
  }

  /** Lower-casing maps `[0-9a-fA-F:]` onto `[0-9a-f:]` and changes nothing else the regex looks at. */
  lemma LowerKeepsClasses(c: char)
    ensures IsHexOrColon(c) ==> IsLowerHexOrColon(LowerChar(c))
    ensures IsHexOrColon(LowerChar(c)) == IsHexOrColon(c)
    ensures IsDigit(LowerChar(c)) == IsDigit(c)
    ensures IsSpace(LowerChar(c)) == IsSpace(c)
    ensures NotNewline(LowerChar(c)) == NotNewline(c)
    ensures (LowerChar(c) == '.') == (c == '.')
    ensures IsDigitOrDot(LowerChar(c)) == IsDigitOrDot(c)
  {
  }

  /** Number of occurrences of `c` in `s`. */
  function Count(s: string, c: char): (n: nat)
    ensures n <= |s|
    ensures n == 0 <==> c !in s
  {
    if s == [] then 0 else (if s[0] == c then 1 else 0) + Count(s[1..], c)
  }

  /** Two distinct positions holding `c` mean at least two occurrences. */
  lemma {:induction false} CountAtLeastTwo(s: string, c: char, i: nat, j: nat)
    requires i < j < |s| && s[i] == c && s[j] == c
    ensures Count(s, c) >= 2
    decreases i
  {
    assert s[1..][j - 1] == c;
    if i > 0 {
      CountAtLeastTwo(s[1..], c, i - 1, j - 1);
    }
  }
}

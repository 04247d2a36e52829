/**
 Character classes and string searches of the JavaScript regular-expression
 dialect the translation tool relies on. A `char` is a Unicode scalar value
 and stands for one UTF-16 code unit of a JavaScript string; surrogate code
 units are not `char`s, so surrogate pairs are not modelled.
 */
module Text {

  /** The `\s` class of an ECMAScript regular expression: WhiteSpace and LineTerminator code points. */
  predicate IsJsSpace(c: char) {
    var n := c as int;
    n == 0x09 || n == 0x0A || n == 0x0B || n == 0x0C || n == 0x0D || n == 0x20
    || n == 0xA0 || n == 0x1680 || (0x2000 <= n <= 0x200A)
    || n == 0x2028 || n == 0x2029 || n == 0x202F || n == 0x205F
    || n == 0x3000 || n == 0xFEFF
  }

  /** The line terminators that `.` refuses to match: LF, CR, LINE SEPARATOR and PARAGRAPH SEPARATOR. */
  predicate IsLineTerminator(c: char) {
    var n := c as int;
    n == 0x0A || n == 0x0D || n == 0x2028 || n == 0x2029
  }

  lemma LineTerminatorIsSpace(c: char)
    ensures IsLineTerminator(c) ==> IsJsSpace(c)
  {
  }

  /** The `\w` class without the `u` flag: ASCII letters, digits and underscore. */
  predicate IsWordChar(c: char) {
    ('a' <= c <= 'z') || ('A' <= c <= 'Z') || ('0' <= c <= '9') || c == '_'
  }

  /** True when position `k` of `s` holds a word character; positions outside `s` do not. */
  predicate WordAt(s: string, k: int) {
    0 <= k < |s| && IsWordChar(s[k])
  }

  /** The `\b` assertion at position `k`: exactly one of the characters around it is a word character. */
  predicate IsBoundary(s: string, k: int) {
    WordAt(s, k - 1) != WordAt(s, k)
  }

  /** Upper-cases the ASCII letters `a`..`z` and leaves every other code unit alone. */
  function AsciiUpper(c: char): (u: char)
    ensures ('a' <= c <= 'z') ==> u as int == c as int - 32
    ensures !('a' <= c <= 'z') ==> u == c
  {
    if 'a' <= c <= 'z' then (c as int - 32) as char else c
  }

  predicate IsAsciiLetter(c: char) {
    ('a' <= c <= 'z') || ('A' <= c <= 'Z')
  }

  predicate IsAscii(c: char) {
    c as int < 128
  }

  /**
   Two code units are equal under the `i` flag of a non-unicode regular
   expression. ECMAScript's Canonicalize never maps a code unit at or above
   128 to one below 128, so for an ASCII pattern character ASCII folding is
   the whole rule.
   */
  predicate FoldEq(c: char, p: char) {
    AsciiUpper(c) == AsciiUpper(p)
  }

  /** The literal `w` occurs in `s` at position `k`, compared with ASCII case folding. */
  predicate FoldsAt(s: string, k: nat, w: string) {
    k + |w| <= |s| && forall j :: 0 <= j < |w| ==> FoldEq(s[k + j], w[j])
  }

  /** The literal `w` occurs in `s` at position `k`, compared exactly. */
  predicate LiteralAt(s: string, k: nat, w: string) {
    k + |w| <= |s| && s[k..k + |w|] == w
  }

  /** Every character of `s` is ASCII. */
  predicate AllAscii(s: string) {
    forall k :: 0 <= k < |s| ==> IsAscii(s[k])
  }

  /** No character of `s` is ASCII. */
  predicate NoAscii(s: string) {
    forall k :: 0 <= k < |s| ==> !IsAscii(s[k])
  }

  /** No character of `r` equals any character of `w` under ASCII case folding. */
  predicate Foreign(r: string, w: string) {
    forall i, j :: 0 <= i < |r| && 0 <= j < |w| ==> !FoldEq(r[i], w[j])
  }

  /** Text made only of non-ASCII characters can never take part in a match of an ASCII literal. */
  lemma ForeignByScript(r: string, w: string)
    requires NoAscii(r) && AllAscii(w)
    ensures Foreign(r, w)
  {
    forall i, j | 0 <= i < |r| && 0 <= j < |w|
      ensures !FoldEq(r[i], w[j])
    {
      assert !IsAscii(r[i]) && IsAscii(w[j]);
    }
  }

  /** A folded occurrence of `w` contains a folded occurrence of each of its slices. */
  lemma FoldsAtSlice(s: string, k: nat, w: string, m: nat, n: nat)
    requires m <= n <= |w|
    requires FoldsAt(s, k, w)
    ensures FoldsAt(s, k + m, w[m..n])
  {
    forall j | 0 <= j < n - m
      ensures FoldEq(s[k + m + j], w[m..n][j])
    {
      assert w[m..n][j] == w[m + j];
    }
  }

  /**
   `String.prototype.indexOf` with a string argument: the first position at or
   after `from` where `needle` occurs, or -1 when there is none.
   */
  function IndexOf(hay: string, needle: string, from: nat): (r: int)
    requires from <= |hay|
    ensures -1 <= r <= |hay|
    ensures r >= 0 ==> from <= r && LiteralAt(hay, r, needle)
    ensures r >= 0 ==> forall k :: from <= k < r ==> !LiteralAt(hay, k, needle)
    ensures r < 0 ==> forall k :: from <= k <= |hay| ==> !LiteralAt(hay, k, needle)
    decreases |hay| - from
  {
    if LiteralAt(hay, from, needle) then from
    else if from == |hay| then -1
    else IndexOf(hay, needle, from + 1)
  }

  /** The number of occurrences of `c` in `s`. */
  function CountChar(s: string, c: char): nat
  {
    if |s| == 0 then 0 else (if s[0] == c then 1 else 0) + CountChar(s[1..], c)
  }

  lemma CountCharAppend(a: string, b: string, c: char)
    ensures CountChar(a + b, c) == CountChar(a, c) + CountChar(b, c)
  {
    if |a| == 0 {
      assert a + b == b;
    } else {
      assert (a + b)[1..] == a[1..] + b;
      CountCharAppend(a[1..], b, c);
    }
  }

  lemma CountCharAbsent(s: string, c: char)
    requires c !in s
    ensures CountChar(s, c) == 0
  {
    if |s| > 0 {
      assert s[0] != c;
      assert forall k :: 0 <= k < |s| - 1 ==> s[1..][k] == s[k + 1];
      CountCharAbsent(s[1..], c);
    }
  }
}

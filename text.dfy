/**
 * The few Python string primitives the contact manager relies on:
 * `str.isdigit`, `int`, the `in` substring test, `", ".join`,
 * `str.split()` without arguments and `str.lower`.
 */
module Text {

  /** An ASCII decimal digit. */
  predicate IsDigit(c: char) {
    '0' <= c <= '9'
  }

  /** `s.isdigit()`: non-empty and made of digits only. */
  predicate IsDigits(s: string) {
    |s| > 0 && forall i :: 0 <= i < |s| ==> IsDigit(s[i])
  }

  function DigitValue(c: char): (d: nat)
    requires IsDigit(c)
    ensures d <= 9
  {
    c as int - '0' as int
  }

  /** `int(s)` for a string of digits. */
  function DecimalValue(s: string): nat
    requires forall i :: 0 <= i < |s| ==> IsDigit(s[i])
    decreases |s|
  {
    if s == [] then 0 else 10 * DecimalValue(s[..|s| - 1]) + DigitValue(s[|s| - 1])
  }

  /** Python's `q in s` on strings: `q` occurs in `s` as a contiguous piece. */
  predicate Contains(s: string, q: string)
    decreases |s|
  {
    q <= s || (|s| > 0 && Contains(s[1..], q))
  }

  /** A string lacking one of the characters of `q` does not contain `q`. */
  lemma {:induction false} MissingChar(s: string, q: string, c: char)
    requires c in q && c !in s
    ensures !Contains(s, q)
    decreases |s|
  {
    if |s| > 0 {
      MissingChar(s[1..], q, c);
    }
  }

  /** `sep.join(ps)`. */
  function Join(ps: seq<string>, sep: string): string
  {
    if |ps| == 0 then "" else if |ps| == 1 then ps[0] else ps[0] + sep + Join(ps[1..], sep)
  }

  /** The characters `str.isspace` accepts, which `str.split()` splits on. */
  predicate IsSpace(c: char) {
    var n := c as int;
    (9 <= n <= 13) || (28 <= n <= 32) || n == 0x85 || n == 0xA0 || n == 0x1680
    || (0x2000 <= n <= 0x200A) || n == 0x2028 || n == 0x2029 || n == 0x202F
    || n == 0x205F || n == 0x3000
  }

  predicate NoSpace(s: string) {
    forall i :: 0 <= i < |s| ==> !IsSpace(s[i])
  }

  /** The characters of `s` that are not white space, in order. */
  function NonSpace(s: string): (r: string)
    decreases |s|
  {
    if s == [] then [] else (if IsSpace(s[0]) then [] else [s[0]]) + NonSpace(s[1..])
  }

  function Concat(ws: seq<string>): string
  {
    if ws == [] then [] else ws[0] + Concat(ws[1..])
  }

  /**
   * Scans `s` while `word` holds the characters of the token read so far;
   * `str.split()` is SplitFrom(s, []).
   */
  function SplitFrom(s: string, word: string): (r: seq<string>)
    requires NoSpace(word)
    ensures forall k :: 0 <= k < |r| ==> |r[k]| > 0 && NoSpace(r[k])
    ensures Concat(r) == word + NonSpace(s)
    decreases |s|
  {
    if s == [] then
      (if word == [] then [] else [word])
    else if IsSpace(s[0]) then
      var rest := SplitFrom(s[1..], []);
      assert NonSpace(s) == NonSpace(s[1..]);
      if word == [] then rest else [word] + rest
    else
      var rest := SplitFrom(s[1..], word + [s[0]]);
      assert NonSpace(s) == [s[0]] + NonSpace(s[1..]);
      assert word + [s[0]] + NonSpace(s[1..]) == word + NonSpace(s);
      rest
  }

  /**
   * `s.split()`: the maximal runs of non-space characters. Every token is
   * non-empty and space-free, and together they hold exactly the
   * non-space characters of `s`, in order.
   */
  function Split(s: string): (r: seq<string>)
    ensures forall k :: 0 <= k < |r| ==> |r[k]| > 0 && NoSpace(r[k])
    ensures Concat(r) == NonSpace(s)
  {
    SplitFrom(s, [])
  }

  lemma {:induction false} SplitFromWord(u: string, s: string, word: string)
    requires NoSpace(word) && NoSpace(u) && |word + u| > 0
    ensures SplitFrom(u + " " + s, word) == [word + u] + SplitFrom(s, [])
    decreases |u|
  {
    if u == [] {
      assert u + " " + s == [' '] + s;
      assert (u + " " + s)[1..] == s;
      assert word + u == word && word != [];
      assert IsSpace((u + " " + s)[0]);
    } else {
      assert (u + " " + s)[0] == u[0];
      assert (u + " " + s)[1..] == u[1..] + " " + s;
      assert word + [u[0]] + u[1..] == word + u;
      SplitFromWord(u[1..], s, word + [u[0]]);
    }
  }

  /** A leading space-free word followed by a space is the first token. */
  lemma SplitAfterWord(w: string, s: string)
    requires |w| > 0 && NoSpace(w)
    ensures Split(w + " " + s) == [w] + Split(s)
  {
    SplitFromWord(w, s, []);
    assert [] + w == w;
  }

  lemma {:induction false} SplitFromNoSpace(u: string, word: string)
    requires NoSpace(word) && NoSpace(u) && |word + u| > 0
    ensures SplitFrom(u, word) == [word + u]
    decreases |u|
  {
    if u == [] {
      assert word + u == word;
    } else {
      assert !IsSpace(u[0]);
      assert word + [u[0]] + u[1..] == word + u;
      SplitFromNoSpace(u[1..], word + [u[0]]);
    }
  }

  /** A non-empty space-free string splits into itself. */
  lemma SplitSingleWord(w: string)
    requires |w| > 0 && NoSpace(w)
    ensures Split(w) == [w]
  {
    SplitFromNoSpace(w, []);
    assert [] + w == w;
  }

  function LowerChar(c: char): char {
    if 'A' <= c <= 'Z' then (c as int - 'A' as int + 'a' as int) as char else c
  }

  /** `s.lower()` on the ASCII letters. */
  function Lower(s: string): (r: string)
    ensures |r| == |s| && forall i :: 0 <= i < |s| ==> r[i] == LowerChar(s[i])
  {
    seq(|s|, i requires 0 <= i < |s| => LowerChar(s[i]))
  }

  lemma LowerConcat(a: string, b: string)
    ensures Lower(a + b) == Lower(a) + Lower(b)
  {
    assert forall i :: 0 <= i < |a + b| ==> Lower(a + b)[i] == (Lower(a) + Lower(b))[i];
  }

  /** Lowering twice is lowering once. */
  lemma LowerIdempotent(s: string)
    ensures Lower(Lower(s)) == Lower(s)
  {
  }

  /** No ASCII capital letter. */
  predicate NoCapitals(s: string) {
    forall i :: 0 <= i < |s| ==> !('A' <= s[i] <= 'Z')
  }

  /** Strings without capital letters are their own lower case. */
  lemma LowerIdentity(s: string)
    requires NoCapitals(s)
    ensures Lower(s) == s
  {
  }
}

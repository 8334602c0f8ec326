/** Character and string helpers shared by the validators and the progress
    messages: ASCII digits, decimal rendering of naturals (Python's `str(n)`),
    concatenation of stream chunks, substring search (Python's `in` on
    strings) and ASCII lower-casing (the part of `str.lower` the model keeps). */
module Text {

  predicate IsDigit(c: char) {
    '0' <= c <= '9'
  }

  predicate AllDigits(s: string) {
    forall i :: 0 <= i < |s| ==> IsDigit(s[i])
  }

  function DigitValue(c: char): (d: nat)
    requires IsDigit(c)
    ensures d < 10
  {
    c as int - '0' as int
  }

  function DigitChar(d: nat): (c: char)
    requires d < 10
    ensures IsDigit(c) && DigitValue(c) == d
  {
    ('0' as int + d) as char
  }

  /** The number a string of decimal digits denotes. */
  function DigitsValue(s: string): nat
    requires AllDigits(s)
  {
    if s == [] then 0 else DigitsValue(s[..|s| - 1]) * 10 + DigitValue(s[|s| - 1])
  }

  /** Python's `str(n)` for a non-negative integer. */
  function NatToString(n: nat): (s: string)
    ensures |s| >= 1 && AllDigits(s)
    decreases n
  {
    if n < 10 then [DigitChar(n)] else NatToString(n / 10) + [DigitChar(n % 10)]
  }

  /** Reading back the decimal rendering gives the number: `int(str(n)) == n`. */
  lemma {:induction false} NatToStringValue(n: nat)
    ensures DigitsValue(NatToString(n)) == n
  {
    if n >= 10 {
      NatToStringValue(n / 10);
      var s := NatToString(n);
      assert s[..|s| - 1] == NatToString(n / 10);
    }
  }

  /** The text of a stream given as the chunks it was read in. */
  function Concat(chunks: seq<string>): string {
    if chunks == [] then "" else chunks[0] + Concat(chunks[1..])
  }

  /** `pattern` occurs in `s` starting at index `i`. */
  predicate OccursAt(s: string, pattern: string, i: int) {
    0 <= i && i + |pattern| <= |s| && s[i..i + |pattern|] == pattern
  }

  /** Python's `pattern in s`. */
  predicate Contains(s: string, pattern: string) {
    exists i | 0 <= i <= |s| - |pattern| :: OccursAt(s, pattern, i)
  }

  /** Every chunk of a stream occurs in the stream's text. */
  lemma {:induction false} ConcatContainsChunk(chunks: seq<string>, k: nat)
    requires k < |chunks|
    ensures Contains(Concat(chunks), chunks[k])
  {
    var text := Concat(chunks);
    if k == 0 {
      assert OccursAt(text, chunks[0], 0);
    } else {
      var c := chunks[k];
      assert chunks[1..][k - 1] == c;
      ConcatContainsChunk(chunks[1..], k - 1);
      var rest := Concat(chunks[1..]);
      assert text == chunks[0] + rest;
      var i :| 0 <= i <= |rest| - |c| && OccursAt(rest, c, i);
      var j := |chunks[0]| + i;
      assert text[j..j + |c|] == rest[i..i + |c|];
      assert OccursAt(text, c, j);
    }
  }

  /** Text put in front of a string keeps every occurrence in it. */
  lemma ContainsAfterPrefix(prefix: string, s: string, pattern: string)
    requires Contains(s, pattern)
    ensures Contains(prefix + s, pattern)
  {
    var i :| 0 <= i <= |s| - |pattern| && OccursAt(s, pattern, i);
    var j := |prefix| + i;
    assert (prefix + s)[j..j + |pattern|] == s[i..i + |pattern|];
    assert OccursAt(prefix + s, pattern, j);
  }

  /** Concatenation is associative; stated once so that proofs need not
      rediscover it element by element. */
  lemma AppendAssoc<T>(x: seq<T>, y: seq<T>, z: seq<T>)
    ensures x + (y + z) == (x + y) + z
  {
  }

  function LowerChar(c: char): char {
    if 'A' <= c <= 'Z' then (c as int - 'A' as int + 'a' as int) as char else c
  }

  /** `s.lower()` restricted to the ASCII letters: no upper-case letter is
      left, and each character is either kept or is the upper-case letter
      it replaces moved 32 code points up to its lower-case form. */
  function ToLowerAscii(s: string): (r: string)
    ensures |r| == |s|
    ensures forall i :: 0 <= i < |s| ==>
      !('A' <= r[i] <= 'Z') &&
      (r[i] == s[i] || ('A' <= s[i] <= 'Z' && r[i] as int == s[i] as int + 32))
  {
    seq(|s|, i requires 0 <= i < |s| => LowerChar(s[i]))
  }

  /** Lower-cased equality is ASCII case-insensitive equality: two strings
      lower-case to the same text exactly when, position by position, their
      characters are equal or are the two cases of one letter. */
  lemma {:induction false} LowerEqualIffCaseless(a: string, b: string)
    requires |a| == |b|
    ensures ToLowerAscii(a) == ToLowerAscii(b) <==>
      forall i :: 0 <= i < |a| ==> SameLetterIgnoringCase(a[i], b[i])
  {
    if ToLowerAscii(a) == ToLowerAscii(b) {
      forall i | 0 <= i < |a|
        ensures SameLetterIgnoringCase(a[i], b[i])
      {
        assert ToLowerAscii(a)[i] == ToLowerAscii(b)[i];
      }
    }
    if forall i :: 0 <= i < |a| ==> SameLetterIgnoringCase(a[i], b[i]) {
      forall i | 0 <= i < |a|
        ensures ToLowerAscii(a)[i] == ToLowerAscii(b)[i]
      {
        assert SameLetterIgnoringCase(a[i], b[i]);
      }
    }
  }

  /** `x` and `y` are the same character, or one is the upper-case form of
      the other. */
  predicate SameLetterIgnoringCase(x: char, y: char) {
    x == y ||
    ('A' <= x <= 'Z' && y as int == x as int + 32) ||
    ('A' <= y <= 'Z' && x as int == y as int + 32)
  }
}

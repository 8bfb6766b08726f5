/** Characters and strings as the Rust standard library treats them, for
    the parts the exercises use: `char::is_alphabetic`, `is_uppercase`,
    `to_lowercase`, `to_uppercase`, `str::split_whitespace` and
    `join(" ")`. The character classes and case maps are given exactly for
    Latin-1 (U+0000 to U+00FF); beyond it every character counts as a
    non-letter whose case maps are the identity. The whitespace class is
    Unicode's complete White_Space property. */
module Text {

  /** `char::is_alphabetic` on Latin-1. */
  predicate IsAlphabetic(c: char) {
    || 'A' <= c <= 'Z' || 'a' <= c <= 'z'
    || c == 'ª' || c == 'µ' || c == 'º'
    || ('À' <= c <= 'ÿ' && c != '×' && c != '÷')
  }

  /** `char::is_uppercase` on Latin-1. */
  predicate IsUppercase(c: char) {
    'A' <= c <= 'Z' || ('À' <= c <= 'Þ' && c != '×')
  }

  /** The single character of `c.to_lowercase()` (no Latin-1 character
      lower-cases to more than one). */
  function ToLower(c: char): (r: char)
    ensures IsUppercase(c) ==> r as int == c as int + 32
    ensures !IsUppercase(c) ==> r == c
  {
    if IsUppercase(c) then (c as int + 32) as char else c
  }

  /** The first character of `c.to_uppercase()`: 'ß' upper-cases to "SS",
      'ÿ' to U+0178 and 'µ' to the Greek capital mu U+039C. */
  function ToUpper(c: char): char {
    if 'a' <= c <= 'z' || ('à' <= c <= 'þ' && c != '÷') then (c as int - 32) as char
    else if c == 'ß' then 'S'
    else if c == 'ÿ' then '\U{0178}'
    else if c == 'µ' then '\U{039C}'
    else c
  }

  /** `str::to_lowercase`, character by character. */
  function LowerStr(s: string): (r: string)
    ensures |r| == |s|
    ensures forall k :: 0 <= k < |s| ==> r[k] == ToLower(s[k])
  {
    if s == [] then [] else [ToLower(s[0])] + LowerStr(s[1..])
  }

  /** `char::is_whitespace`: Unicode's White_Space property. */
  predicate IsWhitespace(c: char) {
    || '\t' <= c <= '\r' || c == ' ' || c == '\U{0085}' || c == '\U{00A0}'
    || c == '\U{1680}' || '\U{2000}' <= c <= '\U{200A}' || c == '\U{2028}' || c == '\U{2029}'
    || c == '\U{202F}' || c == '\U{205F}' || c == '\U{3000}'
  }

  /** A word as `split_whitespace` yields it: non-empty, no whitespace. */
  predicate IsWord(w: string) {
    w != [] && forall k :: 0 <= k < |w| ==> !IsWhitespace(w[k])
  }

  /** The length of the run of non-whitespace characters that starts `s`. */
  function RunLength(s: string): (n: nat)
    ensures n <= |s|
    ensures forall k :: 0 <= k < n ==> !IsWhitespace(s[k])
    ensures n < |s| ==> IsWhitespace(s[n])
  {
    if s == [] || IsWhitespace(s[0]) then 0 else 1 + RunLength(s[1..])
  }

  /** `s.split_whitespace()`: the maximal runs of non-whitespace characters,
      in order; leading, trailing and repeated whitespace yields nothing. */
  function Words(s: string): (ws: seq<string>)
    ensures forall k :: 0 <= k < |ws| ==> IsWord(ws[k])
    decreases |s|
  {
    if s == [] then []
    else if IsWhitespace(s[0]) then Words(s[1..])
    else
      var n := RunLength(s);
      [s[..n]] + Words(s[n..])
  }

  /** `words.join(" ")`. */
  function Join(ws: seq<string>): string {
    if ws == [] then ""
    else if |ws| == 1 then ws[0]
    else ws[0] + " " + Join(ws[1..])
  }

  /** A word followed by whitespace (or nothing) is split off whole. */
  lemma WordsOfWordThen(w: string, rest: string)
    requires IsWord(w)
    requires rest == [] || IsWhitespace(rest[0])
    ensures Words(w + rest) == [w] + Words(rest)
  {
    RunLengthOfWordThen(w, rest);
    assert (w + rest)[..|w|] == w;
    assert (w + rest)[|w|..] == rest;
  }

  lemma {:induction false} RunLengthOfWordThen(w: string, rest: string)
    requires forall k :: 0 <= k < |w| ==> !IsWhitespace(w[k])
    requires rest == [] || IsWhitespace(rest[0])
    ensures RunLength(w + rest) == |w|
  {
    if w != [] {
      assert (w + rest)[1..] == w[1..] + rest;
      RunLengthOfWordThen(w[1..], rest);
    }
  }

  /** Splitting words joined with single spaces gives the words back: the
      round trip that makes `join(" ")` the inverse of `split_whitespace`. */
  lemma {:induction false} WordsOfJoin(ws: seq<string>)
    requires forall k :: 0 <= k < |ws| ==> IsWord(ws[k])
    ensures Words(Join(ws)) == ws
  {
    if |ws| == 1 {
      WordsOfWordThen(ws[0], "");
      assert ws[0] + "" == Join(ws);
    } else if |ws| > 1 {
      var tail := " " + Join(ws[1..]);
      assert Join(ws) == ws[0] + tail;
      WordsOfWordThen(ws[0], tail);
      assert tail[1..] == Join(ws[1..]);
      WordsOfJoin(ws[1..]);
    }
  }

  /** Lower-casing preserves and reflects whitespace, so it commutes with
      the split into words. */
  lemma LowerKeepsWhitespace(c: char)
    ensures IsWhitespace(ToLower(c)) <==> IsWhitespace(c)
  {
  }

  /** Upper-casing never turns a character into whitespace. */
  lemma UpperKeepsNonWhitespace(c: char)
    requires !IsWhitespace(c)
    ensures !IsWhitespace(ToUpper(c))
  {
  }

  /** Rust's `Ord` on `String`: lexicographic, character by character.
      UTF-8 byte order agrees with code-point order, so comparing
      characters is comparing bytes. */
  predicate LexLe(a: string, b: string) {
    a == [] || (b != [] && (a[0] < b[0] || (a[0] == b[0] && LexLe(a[1..], b[1..]))))
  }

  lemma {:induction false} LexLeTotal(a: string, b: string)
    ensures LexLe(a, b) || LexLe(b, a)
  {
    if a != [] && b != [] && a[0] == b[0] {
      LexLeTotal(a[1..], b[1..]);
    }
  }

  lemma {:induction false} LexLeTransitive(a: string, b: string, c: string)
    requires LexLe(a, b) && LexLe(b, c)
    ensures LexLe(a, c)
  {
    if a != [] && a[0] == b[0] && b[0] == c[0] {
      LexLeTransitive(a[1..], b[1..], c[1..]);
    }
  }

  /** Two strings each at most the other are equal: the order is total
      and sorting strings has one answer. */
  lemma {:induction false} LexLeAntisymmetric(a: string, b: string)
    requires LexLe(a, b) && LexLe(b, a)
    ensures a == b
  {
    if a != [] {
      LexLeAntisymmetric(a[1..], b[1..]);
      assert a == [a[0]] + a[1..] && b == [b[0]] + b[1..];
    }
  }
}

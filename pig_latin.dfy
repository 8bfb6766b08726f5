/** The Pig Latin transformer: one word at a time (`word_to_pig_latin`),
    and a whole text, word by word and run of letters by run of letters
    (`to_pig_latin`). The interactive loop is not part of this model. */
module PigLatin {
  import opened Common
  import opened Text

  /** The lower-case vowels `is_vowel` lists. */
  predicate IsLowerVowel(c: char) {
    c in {'a', 'e', 'i', 'o', 'u',
          'à', 'á', 'â', 'ã', 'ä', 'å',
          'è', 'é', 'ê', 'ë',
          'ì', 'í', 'î', 'ï',
          'ò', 'ó', 'ô', 'õ', 'ö',
          'ù', 'ú', 'û', 'ü'}
  }

  /** `is_vowel(c)`: `c`, lower-cased, is one of the listed vowels. */
  predicate IsVowel(c: char) {
    IsLowerVowel(ToLower(c))
  }

  /** `is_letter(c)`. */
  predicate IsLetter(c: char) {
    IsAlphabetic(c)
  }

  /** Every vowel is a letter, so a letter is a vowel or a consonant. */
  lemma VowelsAreLetters(c: char)
    requires IsVowel(c)
    ensures IsLetter(c)
  {
  }

  /** The examples the tests check: vowels in either case, consonants and
      'y' are not vowels. */
  lemma VowelExamples()
    ensures IsVowel('a') && IsVowel('E') && IsVowel('i') && IsVowel('O') && IsVowel('u')
    ensures !IsVowel('b') && !IsVowel('Z') && !IsVowel('y') && !IsVowel('Y')
    ensures IsVowel('É') && IsVowel('ü')
  {
  }

  predicate IsConsonant(c: char) {
    IsLetter(c) && !IsVowel(c)
  }

  /** The index of the first vowel of `s`, or `|s|` if it has none. */
  function FirstVowel(s: string): (m: nat)
    ensures m <= |s|
    ensures forall k :: 0 <= k < m ==> !IsVowel(s[k])
    ensures m < |s| ==> IsVowel(s[m])
  {
    if s == [] || IsVowel(s[0]) then 0 else 1 + FirstVowel(s[1..])
  }

  /** How many consonants `s` holds. */
  function Consonants(s: string): (n: nat)
    ensures n <= |s|
    ensures s != [] && IsConsonant(s[0]) ==> n >= 1
  {
    if s == [] then 0 else (if IsConsonant(s[0]) then 1 else 0) + Consonants(s[1..])
  }

  /** A 'q' right before a 'u' at index `m`, in either case. */
  predicate QuAt(s: string, m: nat) {
    1 <= m < |s| && ToLower(s[m - 1]) == 'q' && ToLower(s[m]) == 'u'
  }

  /** How many characters `word_to_pig_latin` moves to the end of a word
      that starts with a consonant: one per consonant before the first
      vowel, plus the 'u' of a "qu" that ends the cluster. Characters that
      are not letters before the first vowel are not counted, although they
      lie inside the prefix that is cut off. */
  function ClusterLength(part: string): (n: nat)
    ensures n <= |part|
    ensures part != [] && IsConsonant(part[0]) ==> n >= 1
  {
    var m := FirstVowel(part);
    assert Consonants(part[..m]) <= m;
    Consonants(part[..m]) + (if QuAt(part, m) then 1 else 0)
  }

  /** When everything before the first vowel is a letter, the cluster is
      exactly the consonants before the first vowel, together with the 'u'
      when they end in 'q'. */
  lemma LetterCluster(part: string)
    requires forall k :: 0 <= k < FirstVowel(part) ==> IsLetter(part[k])
    ensures ClusterLength(part) == FirstVowel(part) + (if QuAt(part, FirstVowel(part)) then 1 else 0)
    ensures forall k :: 0 <= k < FirstVowel(part) ==> IsConsonant(part[k])
  {
    var m := FirstVowel(part);
    AllConsonants(part[..m]);
  }

  lemma {:induction false} AllConsonants(s: string)
    requires forall k :: 0 <= k < |s| ==> IsConsonant(s[k])
    ensures Consonants(s) == |s|
  {
    if s != [] {
      AllConsonants(s[1..]);
    }
  }

  /** The first letter of `word`, if any. */
  function FirstLetter(word: string): (r: Option<nat>)
    ensures r.Some? ==> r.value < |word| && IsLetter(word[r.value])
    ensures r.Some? ==> forall k :: 0 <= k < r.value ==> !IsLetter(word[k])
    ensures r.None? ==> forall k :: 0 <= k < |word| ==> !IsLetter(word[k])
  {
    Position(word, IsLetter)
  }

  /** The word with its first character upper-cased. */
  function Capitalise(s: string): (r: string)
    ensures |r| == |s|
  {
    if s == [] then [] else [ToUpper(s[0])] + s[1..]
  }

  /** The cluster of `part` moved behind a '-', lower-cased and followed
      by "ay"; when `upper`, the new first character is upper-cased. */
  function Rotate(part: string, upper: bool): string {
    var n := ClusterLength(part);
    var remaining := part[n..];
    var shown := if upper && remaining != [] then Capitalise(remaining) else remaining;
    shown + "-" + LowerStr(part[..n]) + "ay"
  }

  /** The result of `word_to_pig_latin(word)`. Whatever precedes the first
      letter stays in front. A word whose first letter is a vowel gets
      "-hay". Otherwise the cluster of `ClusterLength` characters from the
      first letter on moves behind a '-', lower-cased and followed by "ay";
      if the first letter was upper-case, the new first character is
      upper-cased. */
  function PigWord(word: string): string {
    if word == [] then []
    else match FirstLetter(word)
      case None => word
      case Some(p) =>
        if IsVowel(word[p]) then word + "-hay"
        else word[..p] + Rotate(word[p..], IsUppercase(word[p]))
  }

  /** A word that starts with a consonant is rotated whole. */
  lemma PigWordOfConsonantStart(word: string)
    requires word != [] && IsConsonant(word[0])
    ensures PigWord(word) == Rotate(word, IsUppercase(word[0]))
  {
    PositionIs(word, IsLetter, 0);
    assert word[..0] == [] && word[0..] == word;
  }

  /** `word_to_pig_latin(word)`. */
  method WordToPigLatin(word: string) returns (r: string)
    ensures r == PigWord(word)
  {
    if word == [] {
      return [];
    }
    var found := FirstLetter(word);
    if found.None? {
      return word;
    }
    var p := found.value;
    var first := word[p];
    var prefix, part := word[..p], word[p..];
    if IsVowel(first) {
      assert prefix + part == word;
      return prefix + part + "-hay";
    }
    var rotated := MoveCluster(part, IsUppercase(first));
    r := prefix + rotated;
  }

  /** The consonant branch of `word_to_pig_latin` on the word from its
      first letter on: count the cluster, move it behind a '-', lower-cased
      and followed by "ay", and capitalise what is left when `upper`. */
  method MoveCluster(part: string, upper: bool) returns (r: string)
    requires part != [] && IsConsonant(part[0])
    ensures r == Rotate(part, upper)
  {
    var count := CountCluster(part);
    // `consonant_count == 0` cannot happen: the first letter is a consonant.
    assert count >= 1;
    var consonants, remaining := part[..count], part[count..];
    if upper && remaining != [] {
      var capitalised := Capitalise(remaining);
      r := capitalised + "-" + LowerStr(consonants) + "ay";
    } else {
      r := remaining + "-" + LowerStr(consonants) + "ay";
    }
  }

  /** The counting loop of `word_to_pig_latin`: walk the word from its
      first letter, count consonants, stop at the first vowel, and take a
      "qu" together. */
  method CountCluster(part: string) returns (count: nat)
    ensures count == ClusterLength(part)
  {
    count := 0;
    for i := 0 to |part|
      invariant i <= FirstVowel(part)
      invariant count == Consonants(part[..i])
      invariant !QuAt(part, i)
    {
      var c := part[i];
      ClusterStep(part, i);
      if IsLetter(c) && !IsVowel(c) {
        count := count + 1;
        if ToLower(c) == 'q' && i + 1 < |part| && ToLower(part[i + 1]) == 'u' {
          count := count + 1;
          break;
        }
      } else if IsLetter(c) && IsVowel(c) {
        break;
      }
    }
  }

  /** One step of the counting loop at index `i`, before the first vowel. */
  lemma ClusterStep(part: string, i: nat)
    requires i < |part| && i <= FirstVowel(part)
    ensures Consonants(part[..i + 1]) == Consonants(part[..i]) + (if IsConsonant(part[i]) then 1 else 0)
    ensures IsVowel(part[i]) ==> IsLetter(part[i]) && FirstVowel(part) == i
    ensures !IsVowel(part[i]) ==> i + 1 <= FirstVowel(part)
    ensures QuAt(part, i + 1) <==> IsConsonant(part[i]) && ToLower(part[i]) == 'q' && i + 1 < |part| && ToLower(part[i + 1]) == 'u'
    ensures QuAt(part, i + 1) ==> FirstVowel(part) == i + 1
  {
    var c := part[i];
    ConsonantsTake(part, i);
    if IsVowel(c) {
      VowelsAreLetters(c);
    }
    QLetter(c);
    if QuAt(part, i + 1) {
      assert IsVowel(part[i + 1]);
    }
  }

  /** A character that lower-cases to 'q' is a consonant. */
  lemma QLetter(c: char)
    ensures ToLower(c) == 'q' ==> IsConsonant(c)
  {
    if ToLower(c) == 'q' {
      assert c == 'q' || c == 'Q';
    }
  }

  lemma ConsonantsTake(s: string, i: nat)
    requires i < |s|
    ensures Consonants(s[..i + 1]) == Consonants(s[..i]) + (if IsConsonant(s[i]) then 1 else 0)
  {
    assert s[..i + 1] == s[..i] + [s[i]];
    ConsonantsSnoc(s[..i], s[i]);
  }

  lemma {:induction false} ConsonantsSnoc(s: string, c: char)
    ensures Consonants(s + [c]) == Consonants(s) + (if IsConsonant(c) then 1 else 0)
  {
    if s != [] {
      assert (s + [c])[1..] == s[1..] + [c];
      ConsonantsSnoc(s[1..], c);
    }
  }

  /** `word_to_pig_latin` turns a non-empty word into a non-empty one. */
  lemma PigWordNonEmpty(word: string)
    requires word != []
    ensures PigWord(word) != []
  {
  }

  /** The three simple cases: the empty word, a word without letters, and
      a word whose first letter is a vowel. */
  lemma PigWordSimpleCases(word: string)
    ensures word == [] ==> PigWord(word) == []
    ensures (forall k :: 0 <= k < |word| ==> !IsLetter(word[k])) ==> PigWord(word) == word
    ensures forall p :: 0 <= p < |word| && IsVowel(word[p]) && (forall k :: 0 <= k < p ==> !IsLetter(word[k]))
              ==> PigWord(word) == word + "-hay"
  {
    forall p | 0 <= p < |word| && IsVowel(word[p]) && (forall k :: 0 <= k < p ==> !IsLetter(word[k]))
      ensures PigWord(word) == word + "-hay"
    {
      PositionIs(word, IsLetter, p);
    }
  }

  /** Two strings that agree once lower-cased. */
  predicate SameLower(s: string, t: string) {
    |s| == |t| && forall k :: 0 <= k < |s| ==> ToLower(s[k]) == ToLower(t[k])
  }

  /** Whether a character is a vowel or a consonant does not depend on
      its case. */
  lemma CharIgnoresCase(c: char, d: char)
    requires ToLower(c) == ToLower(d)
    ensures IsVowel(c) == IsVowel(d)
    ensures IsConsonant(c) == IsConsonant(d)
  {
  }

  lemma {:induction false} FirstVowelIgnoresCase(s: string, t: string)
    requires SameLower(s, t)
    ensures FirstVowel(s) == FirstVowel(t)
  {
    if s != [] {
      CharIgnoresCase(s[0], t[0]);
      FirstVowelIgnoresCase(s[1..], t[1..]);
    }
  }

  lemma {:induction false} ConsonantsIgnoresCase(s: string, t: string)
    requires SameLower(s, t)
    ensures Consonants(s) == Consonants(t)
  {
    if s != [] {
      CharIgnoresCase(s[0], t[0]);
      ConsonantsIgnoresCase(s[1..], t[1..]);
    }
  }

  /** Letters, vowels and the "qu" rule do not depend on case, so neither
      does the cluster. */
  lemma ClusterIgnoresCase(s: string, t: string)
    requires SameLower(s, t)
    ensures ClusterLength(s) == ClusterLength(t)
  {
    FirstVowelIgnoresCase(s, t);
    var m := FirstVowel(s);
    ConsonantsIgnoresCase(s[..m], t[..m]);
    assert QuAt(s, m) <==> QuAt(t, m);
  }

  /** A word of lower-case ASCII letters. */
  predicate LowerAsciiWord(w: string) {
    w != [] && forall k :: 0 <= k < |w| ==> 'a' <= w[k] <= 'z'
  }

  /** Lower-casing a string of lower-case ASCII letters changes nothing. */
  lemma {:induction false} LowerOfLowerAscii(s: string)
    requires forall k :: 0 <= k < |s| ==> 'a' <= s[k] <= 'z'
    ensures LowerStr(s) == s
  {
  }

  /** The first vowel is where the first vowel stands. */
  lemma {:induction false} FirstVowelIs(s: string, m: nat)
    requires m < |s| && IsVowel(s[m])
    requires forall k :: 0 <= k < m ==> !IsVowel(s[k])
    ensures FirstVowel(s) == m
  {
    if m > 0 {
      assert forall k :: 0 <= k < m - 1 ==> s[1..][k] == s[k + 1];
      FirstVowelIs(s[1..], m - 1);
    }
  }

  /** The rotation of a lower-case ASCII word whose first vowel is at `m`:
      the cluster is the `m` letters before it, with the 'u' of a "qu". */
  lemma LowerAsciiRotation(w: string, m: nat)
    requires LowerAsciiWord(w) && !IsVowel(w[0])
    requires m < |w| && IsVowel(w[m])
    requires forall k :: 0 <= k < m ==> !IsVowel(w[k])
    ensures var n := m + (if QuAt(w, m) then 1 else 0);
      PigWord(w) == w[n..] + "-" + (w[..n] + "ay")
  {
    FirstVowelIs(w, m);
    LetterCluster(w);
    PigWordOfLowerAscii(w);
  }

  /** Capitalisation carries over: the Pig Latin of a capitalised word is
      the capitalised Pig Latin of the word ("First" gives "Irst-fay" as
      "first" gives "irst-fay"). */
  lemma CapitalisationCommutes(w: string)
    requires LowerAsciiWord(w)
    ensures PigWord(Capitalise(w)) == Capitalise(PigWord(w))
  {
    var cw := Capitalise(w);
    assert cw[0] == (w[0] as int - 32) as char;
    assert SameLower(cw, w);
    CharIgnoresCase(cw[0], w[0]);
    if IsVowel(w[0]) {
      PositionIs(w, IsLetter, 0);
      PositionIs(cw, IsLetter, 0);
      assert Capitalise(w + "-hay") == cw + "-hay";
    } else {
      PigWordOfConsonantStart(w);
      PigWordOfConsonantStart(cw);
      RotateCapitalised(w);
    }
  }

  lemma RotateCapitalised(w: string)
    requires LowerAsciiWord(w) && !IsVowel(w[0])
    ensures Rotate(Capitalise(w), true) == Capitalise(Rotate(w, false))
  {
    var cw := Capitalise(w);
    var n := ClusterLength(w);
    CapitalisedCluster(w);
    var tail := "-" + LowerStr(w[..n]) + "ay";
    RotateWithTail(w, false, tail);
    RotateWithTail(cw, true, tail);
    CapitaliseAppend(w[n..], tail);
  }

  /** Capitalising a lower-case word leaves its cluster and what follows
      it as they were, once lower-cased. */
  lemma CapitalisedCluster(w: string)
    requires LowerAsciiWord(w) && !IsVowel(w[0])
    ensures ClusterLength(Capitalise(w)) == ClusterLength(w) >= 1
    ensures Capitalise(w)[ClusterLength(w)..] == w[ClusterLength(w)..]
    ensures LowerStr(Capitalise(w)[..ClusterLength(w)]) == LowerStr(w[..ClusterLength(w)])
  {
    var cw := Capitalise(w);
    CapitaliseSameLower(w);
    ClusterIgnoresCase(cw, w);
    var n := ClusterLength(w);
    assert IsConsonant(w[0]);
    SameLowerPrefix(cw, w, n);
    SameLowerLowerStr(cw[..n], w[..n]);
    assert cw[n..] == w[1..][n - 1..] == w[n..];
  }

  lemma CapitaliseSameLower(w: string)
    requires LowerAsciiWord(w)
    ensures SameLower(Capitalise(w), w) && Capitalise(w)[1..] == w[1..]
  {
    var cw := Capitalise(w);
    assert cw[0] == (w[0] as int - 32) as char;
    assert ToLower(cw[0]) == w[0];
    forall k | 0 <= k < |w| ensures ToLower(cw[k]) == ToLower(w[k]) {
      if k > 0 {
        assert cw[k] == w[k];
      }
    }
  }

  lemma SameLowerPrefix(s: string, t: string, n: nat)
    requires SameLower(s, t) && n <= |s|
    ensures SameLower(s[..n], t[..n])
  {
  }

  /** `Rotate` with its lower-cased cluster and "ay" given as one tail. */
  lemma RotateWithTail(part: string, upper: bool, tail: string)
    requires tail == "-" + LowerStr(part[..ClusterLength(part)]) + "ay"
    ensures Rotate(part, upper)
      == (if upper && part[ClusterLength(part)..] != [] then Capitalise(part[ClusterLength(part)..])
          else part[ClusterLength(part)..]) + tail
  {
  }

  lemma CapitaliseAppend(a: string, b: string)
    requires b != [] && b[0] == '-'
    ensures Capitalise(a + b) == (if a == [] then b else Capitalise(a) + b)
  {
    if a == [] {
      assert a + b == b;
      assert ToUpper(b[0]) == b[0];
      assert [b[0]] + b[1..] == b;
    } else {
      assert (a + b)[0] == a[0];
      assert (a + b)[1..] == a[1..] + b;
      assert Capitalise(a) + b == [ToUpper(a[0])] + (a[1..] + b);
    }
  }

  lemma SameLowerLowerStr(s: string, t: string)
    requires SameLower(s, t)
    ensures LowerStr(s) == LowerStr(t)
  {
  }

  /** Pig Latin back to English for the result of a word that starts with a
      consonant: split at the first '-', drop the final "ay" and put the
      cluster back in front. */
  function Restore(r: string): Option<string> {
    match Position(r, c => c == '-')
    case None => None
    case Some(d) =>
      var front, back := r[..d], r[d + 1..];
      if |back| >= 2 && back[|back| - 2..] == "ay" then Some(back[..|back| - 2] + front) else None
  }

  /** A lower-case ASCII word that starts with a consonant comes back from
      its Pig Latin. */
  lemma RestorePigWord(w: string)
    requires LowerAsciiWord(w) && !IsVowel(w[0])
    ensures Restore(PigWord(w)) == Some(w)
  {
    var n := ClusterLength(w);
    PigWordOfLowerAscii(w);
    var front := w[n..];
    HyphenFreeSuffix(w, n);
    RestoreSplit(front, w[..n]);
    TakeDrop(w, n);
  }

  lemma HyphenFreeSuffix(w: string, n: nat)
    requires LowerAsciiWord(w) && n <= |w|
    ensures forall k :: 0 <= k < |w[n..]| ==> w[n..][k] != '-'
  {
    forall k | 0 <= k < |w[n..]| ensures w[n..][k] != '-' {
      assert w[n..][k] == w[n + k];
    }
  }

  /** A lower-case ASCII word that starts with a consonant keeps its
      cluster as it is, behind the '-'. */
  lemma PigWordOfLowerAscii(w: string)
    requires LowerAsciiWord(w) && !IsVowel(w[0])
    ensures PigWord(w) == w[ClusterLength(w)..] + "-" + (w[..ClusterLength(w)] + "ay")
  {
    PigWordOfConsonantStart(w);
    assert !IsUppercase(w[0]);
    var n := ClusterLength(w);
    LowerOfLowerAscii(w[..n]);
  }

  /** `Restore` splits at the first '-', so it recovers any hyphen-free
      remainder and the cluster before "ay". */
  lemma RestoreSplit(front: string, cluster: string)
    requires forall k :: 0 <= k < |front| ==> front[k] != '-'
    ensures Restore(front + "-" + (cluster + "ay")) == Some(cluster + front)
  {
    var back := cluster + "ay";
    var r := front + "-" + back;
    PositionIs(r, c => c == '-', |front|);
    assert r[..|front|] == front;
    assert r[|front| + 1..] == back;
    assert back[|back| - 2..] == "ay";
    assert back[..|back| - 2] == cluster;
  }

  /** The result cannot always be restored: a vowel-first word and the same
      word behind an 'h' come out alike ("ello" and "hello" both give
      "ello-hay"). */
  lemma VowelWordAndHWordCollide(v: string)
    requires LowerAsciiWord(v) && IsVowel(v[0])
    ensures PigWord("h" + v) == PigWord(v)
  {
    var hv := "h" + v;
    PositionIs(v, IsLetter, 0);
    PositionIs(hv, IsLetter, 0);
    assert hv[1..] == v;
    assert FirstVowel(hv) == 1;
    assert hv[..1] == "h";
    assert ClusterLength(hv) == 1;
    assert LowerStr("h") == "h";
  }

  /** Characters that `to_pig_latin` keeps together as one word: letters
      and apostrophes. */
  predicate InRun(c: char) {
    IsAlphabetic(c) || c == '\''
  }

  /** The length of the run of letters and apostrophes that starts `s`. */
  function RunOf(s: string): (n: nat)
    ensures n <= |s|
    ensures forall k :: 0 <= k < n ==> InRun(s[k])
    ensures n < |s| ==> !InRun(s[n])
  {
    if s == [] || !InRun(s[0]) then 0 else 1 + RunOf(s[1..])
  }

  /** `w` with each maximal run of letters and apostrophes replaced by
      its image under `translate`, and every other character (the hyphen
      included) copied where it stands. */
  function Segmented(w: string, translate: string -> string): string
    decreases |w|
  {
    if w == [] then []
    else if InRun(w[0]) then
      var n := RunOf(w);
      translate(w[..n]) + Segmented(w[n..], translate)
    else [w[0]] + Segmented(w[1..], translate)
  }

  /** The translation of one whitespace-free word: each run goes through
      `word_to_pig_latin`. */
  function PigToken(w: string): string {
    Segmented(w, PigWord)
  }

  /** What the `map` closure of `to_pig_latin` returns for `w`: its
      translation, or `w` itself should that be empty. */
  function TranslateWord(w: string): string {
    var r := PigToken(w);
    if r == [] then w else r
  }

  /** `to_pig_latin(text)`: the words of `text`, each translated, joined
      with single spaces. */
  function PigLatinText(text: string): string {
    var words := Words(text);
    Join(seq(|words|, k requires 0 <= k < |words| => TranslateWord(words[k])))
  }

  /** `x` ends, or `y` starts, with a character outside any run. */
  predicate Boundary(x: string, y: string) {
    x == [] || y == [] || !InRun(x[|x| - 1]) || !InRun(y[0])
  }

  /** At a boundary the translation of a concatenation is the
      concatenation of the translations. */
  lemma {:induction false} SegmentedAppend(x: string, y: string, translate: string -> string)
    requires Boundary(x, y)
    ensures Segmented(x + y, translate) == Segmented(x, translate) + Segmented(y, translate)
    decreases |x|
  {
    if x == [] {
      assert x + y == y;
    } else if !InRun(x[0]) {
      SegmentedAfterOther(x, y, translate);
      SegmentedAppend(x[1..], y, translate);
      ConcatAssoc([x[0]], Segmented(x[1..], translate), Segmented(y, translate));
    } else if RunOf(x) == |x| {
      SegmentedAfterWholeRun(x, y, translate);
    } else {
      var n := RunOf(x);
      SegmentedAfterRun(x, y, translate);
      SegmentedAppend(x[n..], y, translate);
      ConcatAssoc(translate(x[..n]), Segmented(x[n..], translate), Segmented(y, translate));
    }
  }


  lemma SegmentedAfterOther(x: string, y: string, translate: string -> string)
    requires x != [] && !InRun(x[0])
    ensures Segmented(x + y, translate) == [x[0]] + Segmented(x[1..] + y, translate)
    ensures Segmented(x, translate) == [x[0]] + Segmented(x[1..], translate)
    ensures Boundary(x, y) ==> Boundary(x[1..], y)
  {
    assert (x + y)[0] == x[0];
    assert (x + y)[1..] == x[1..] + y;
  }

  lemma SegmentedAfterRun(x: string, y: string, translate: string -> string)
    requires x != [] && InRun(x[0]) && RunOf(x) < |x|
    ensures Segmented(x + y, translate) == translate(x[..RunOf(x)]) + Segmented(x[RunOf(x)..] + y, translate)
    ensures Segmented(x, translate) == translate(x[..RunOf(x)]) + Segmented(x[RunOf(x)..], translate)
    ensures Boundary(x, y) ==> Boundary(x[RunOf(x)..], y)
  {
    var n := RunOf(x);
    RunOfPrefix(x, y);
    assert (x + y)[0] == x[0];
    assert (x + y)[..n] == x[..n];
    assert (x + y)[n..] == x[n..] + y;
  }

  lemma SegmentedAfterWholeRun(x: string, y: string, translate: string -> string)
    requires x != [] && RunOf(x) == |x| && Boundary(x, y)
    ensures Segmented(x + y, translate) == Segmented(x, translate) + Segmented(y, translate)
  {
    var n := |x|;
    assert InRun(x[|x| - 1]);
    RunOfRunThen(x, y);
    assert (x + y)[0] == x[0];
    assert (x + y)[..n] == x && (x + y)[n..] == y;
    assert x[..n] == x && x[n..] == [];
    assert Segmented(x, translate) == translate(x) + Segmented([], translate);
  }

  lemma {:induction false} RunOfRunThen(x: string, y: string)
    requires forall k :: 0 <= k < |x| ==> InRun(x[k])
    requires y == [] || !InRun(y[0])
    ensures RunOf(x + y) == |x|
  {
    if x != [] {
      assert (x + y)[1..] == x[1..] + y;
      RunOfRunThen(x[1..], y);
    }
  }

  lemma {:induction false} RunOfPrefix(x: string, y: string)
    requires RunOf(x) < |x|
    ensures RunOf(x + y) == RunOf(x)
  {
    if InRun(x[0]) {
      assert (x + y)[1..] == x[1..] + y;
      RunOfPrefix(x[1..], y);
    }
  }

  /** A whole run is translated as one word. */
  lemma SegmentedRun(run: string, translate: string -> string)
    requires run != [] && forall k :: 0 <= k < |run| ==> InRun(run[k])
    ensures Segmented(run, translate) == translate(run)
  {
    RunOfRunThen(run, []);
    assert run + [] == run;
    assert run[|run|..] == [];
  }

  lemma SegmentedSeparator(c: char, translate: string -> string)
    requires !InRun(c)
    ensures Segmented([c], translate) == [c]
  {
    assert [c][1..] == [];
  }

  /** Every character outside the runs, the hyphen included, is copied in
      place between the translations of what stands before and after it
      ("well-known" becomes the translations of "well" and "known" around
      the '-'). */
  lemma PigTokenCopiesSeparator(before: string, c: char, after: string)
    requires !InRun(c)
    ensures PigToken(before + [c] + after) == PigToken(before) + [c] + PigToken(after)
  {
    SegmentedAppend([c], after, PigWord);
    SegmentedSeparator(c, PigWord);
    SegmentedAppend(before, [c] + after, PigWord);
    assert before + [c] + after == before + ([c] + after);
  }

  /** A word that is one run of letters and apostrophes is translated by
      `word_to_pig_latin` alone. */
  lemma PigTokenOfRun(run: string)
    requires run != [] && forall k :: 0 <= k < |run| ==> InRun(run[k])
    ensures PigToken(run) == PigWord(run)
  {
    SegmentedRun(run, PigWord);
  }

  /** Only the empty word translates to nothing, so the closure's fallback
      to the word itself never fires for the words of a text. */
  lemma SegmentedEmpty(w: string, translate: string -> string)
    requires forall x :: x != [] ==> translate(x) != []
    ensures Segmented(w, translate) == [] <==> w == []
  {
  }

  lemma PigTokenEmpty(w: string)
    ensures PigToken(w) == [] <==> w == []
  {
    forall x | x != [] ensures PigWord(x) != [] {
      PigWordNonEmpty(x);
    }
    SegmentedEmpty(w, PigWord);
  }

  /** `to_pig_latin` of empty or blank text is empty. */
  lemma BlankText(text: string)
    requires forall k :: 0 <= k < |text| ==> IsWhitespace(text[k])
    ensures PigLatinText(text) == ""
  {
    BlankHasNoWords(text);
  }

  lemma {:induction false} BlankHasNoWords(text: string)
    requires forall k :: 0 <= k < |text| ==> IsWhitespace(text[k])
    ensures Words(text) == []
  {
    if text != [] {
      BlankHasNoWords(text[1..]);
    }
  }

  /** The translation of one word, as the closure in `to_pig_latin` builds
      it: letters and apostrophes collect in `current`; any other
      character first flushes `current` through `word_to_pig_latin`, then
      is copied. */
  method TranslateToken(word: string) returns (result: string)
    ensures result == TranslateWord(word)
  {
    result := TranslateRuns(word);
    if result == [] {
      result := word;
    }
  }

  /** The loop of the closure in `to_pig_latin`: each run of letters and
      apostrophes goes through `word_to_pig_latin`, every other character
      is copied in place. */
  method TranslateRuns(word: string) returns (result: string)
    ensures result == PigToken(word)
  {
    result := [];
    var current := [];
    ghost var start := 0;
    for j := 0 to |word|
      invariant start <= j
      invariant current == word[start..j]
      invariant forall k :: start <= k < j ==> InRun(word[k])
      invariant start == 0 || !InRun(word[start - 1])
      invariant result == PigToken(word[..start])
    {
      var c := word[j];
      if InRun(c) {
        current := current + [c];
      } else {
        result := FlushThenCopy(word, start, j, result, current);
        current := [];
        start := j + 1;
      }
    }
    assert current == word[start..];
    result := FlushLast(word, start, result, current);
  }

  /** A character outside any run: the pending run is flushed, then the
      character is copied. */
  method FlushThenCopy(word: string, ghost start: nat, j: nat, result: string, current: string)
    returns (extended: string)
    requires start <= j < |word|
    requires start == 0 || !InRun(word[start - 1])
    requires forall k :: start <= k < j ==> InRun(word[k])
    requires !InRun(word[j])
    requires result == PigToken(word[..start])
    requires current == word[start..j]
    ensures extended == PigToken(word[..j + 1])
  {
    var flushed := Flush(current);
    RunsStep(word, start, j, result, flushed);
    extended := result + flushed + [word[j]];
  }

  /** After the loop: the last pending run is flushed. */
  method FlushLast(word: string, ghost start: nat, result: string, current: string) returns (extended: string)
    requires start <= |word|
    requires start == 0 || !InRun(word[start - 1])
    requires forall k :: start <= k < |word| ==> InRun(word[k])
    requires result == PigToken(word[..start])
    requires current == word[start..]
    ensures extended == PigToken(word)
  {
    var flushed := Flush(current);
    FinalRun(word, start);
    extended := result + flushed;
  }

  /** The invariant of `TranslateRuns` carried past a separator. */
  lemma RunsStep(word: string, start: nat, j: nat, result: string, flushed: string)
    requires start <= j < |word|
    requires start == 0 || !InRun(word[start - 1])
    requires forall k :: start <= k < j ==> InRun(word[k])
    requires !InRun(word[j])
    requires result == PigToken(word[..start])
    requires flushed == if word[start..j] == [] then [] else PigWord(word[start..j])
    ensures result + flushed + [word[j]] == PigToken(word[..j + 1])
  {
    SplitAtSeparator(word, start, j, PigWord);
  }

  /** `if !current_word.is_empty()`, the pending run through
      `word_to_pig_latin`. */
  method Flush(current: string) returns (flushed: string)
    ensures flushed == if current == [] then [] else PigWord(current)
  {
    flushed := [];
    if current != [] {
      flushed := WordToPigLatin(current);
    }
  }

  /** The translation of a word is that of everything up to its last run,
      followed by the last run's. */
  lemma FinalRun(word: string, start: nat)
    requires start <= |word|
    requires start == 0 || !InRun(word[start - 1])
    requires forall k :: start <= k < |word| ==> InRun(word[k])
    ensures PigToken(word) == PigToken(word[..start])
              + (if start == |word| then [] else PigWord(word[start..]))
  {
    assert Boundary(word[..start], word[start..]) by {
      if start > 0 {
        assert word[..start][start - 1] == word[start - 1];
      }
    }
    SegmentedAppend(word[..start], word[start..], PigWord);
    TakeDrop(word, start);
    if start < |word| {
      PigTokenOfRun(word[start..]);
    } else {
      assert word[start..] == [];
    }
  }

  /** One step of `TranslateToken`: the translation up to a separator is
      the translation up to the last boundary, the pending run, and the
      separator. */
  lemma SplitAtSeparator(word: string, start: nat, j: nat, translate: string -> string)
    requires start <= j < |word|
    requires start == 0 || !InRun(word[start - 1])
    requires forall k :: start <= k < j ==> InRun(word[k])
    requires !InRun(word[j])
    ensures Segmented(word[..j + 1], translate)
            == Segmented(word[..start], translate) + (if start < j then translate(word[start..j]) else []) + [word[j]]
  {
    var before, run, sep := word[..start], word[start..j], [word[j]];
    assert word[..j + 1] == before + (run + sep);
    assert Boundary(before, run + sep) by {
      if start > 0 {
        assert before[|before| - 1] == word[start - 1];
      }
    }
    SegmentedAppend(before, run + sep, translate);
    SegmentedAppend(run, sep, translate);
    SegmentedSeparator(word[j], translate);
    var middle := if start < j then translate(run) else [];
    assert Segmented(run, translate) == middle by {
      if start < j {
        SegmentedRun(run, translate);
      } else {
        assert run == [];
      }
    }
    ConcatAssoc(Segmented(before, translate), middle, sep);
  }

  /** `to_pig_latin(text)`: translate each word of the text and join them
      with single spaces. */
  method ToPigLatin(text: string) returns (out: string)
    ensures out == PigLatinText(text)
  {
    var words := Words(text);
    var translated := [];
    for i := 0 to |words|
      invariant |translated| == i
      invariant forall k :: 0 <= k < i ==> translated[k] == TranslateWord(words[k])
    {
      var t := TranslateToken(words[i]);
      translated := translated + [t];
    }
    assert translated == seq(|words|, k requires 0 <= k < |words| => TranslateWord(words[k]));
    out := Join(translated);
  }

  predicate NoWhitespace(s: string) {
    forall k :: 0 <= k < |s| ==> !IsWhitespace(s[k])
  }

  lemma RotateNoWhitespace(part: string, upper: bool)
    requires NoWhitespace(part)
    ensures NoWhitespace(Rotate(part, upper))
  {
    var n := ClusterLength(part);
    var remaining := part[n..];
    var shown := if upper && remaining != [] then Capitalise(remaining) else remaining;
    assert NoWhitespace(remaining);
    if upper && remaining != [] {
      UpperKeepsNonWhitespace(remaining[0]);
      assert NoWhitespace(shown);
    }
    var lowered := LowerStr(part[..n]);
    forall k | 0 <= k < n ensures !IsWhitespace(lowered[k]) {
      LowerKeepsWhitespace(part[k]);
    }
    var tail := "-" + lowered + "ay";
    RotateWithTail(part, upper, tail);
    TailNoWhitespace(lowered);
    NoWhitespaceConcat(shown, tail);
  }

  /** The '-', the lower-cased cluster and "ay" hold no whitespace. */
  lemma TailNoWhitespace(lowered: string)
    requires NoWhitespace(lowered)
    ensures NoWhitespace("-" + lowered + "ay")
  {
    var tail := "-" + lowered + "ay";
    forall k | 0 <= k < |tail| ensures !IsWhitespace(tail[k]) {
      if k == 0 {
        assert tail[k] == '-';
      } else if k <= |lowered| {
        assert tail[k] == lowered[k - 1];
      } else {
        assert tail[k] == 'a' || tail[k] == 'y';
      }
    }
  }

  lemma NoWhitespaceConcat(a: string, b: string)
    requires NoWhitespace(a) && NoWhitespace(b)
    ensures NoWhitespace(a + b)
  {
  }

  /** `word_to_pig_latin` brings in no whitespace. */
  lemma PigWordNoWhitespace(w: string)
    requires NoWhitespace(w)
    ensures NoWhitespace(PigWord(w))
  {
    match FirstLetter(w)
    case None =>
    case Some(p) =>
      if !IsVowel(w[p]) {
        RotateNoWhitespace(w[p..], IsUppercase(w[p]));
      }
  }

  lemma {:induction false} SegmentedNoWhitespace(w: string, translate: string -> string)
    requires NoWhitespace(w)
    requires forall x :: NoWhitespace(x) ==> NoWhitespace(translate(x))
    ensures NoWhitespace(Segmented(w, translate))
    decreases |w|
  {
    if w != [] {
      if InRun(w[0]) {
        var n := RunOf(w);
        assert NoWhitespace(w[..n]);
        SegmentedNoWhitespace(w[n..], translate);
      } else {
        SegmentedNoWhitespace(w[1..], translate);
      }
    }
  }

  /** The result has exactly as many words as the text, the k-th being the
      translation of the k-th: `to_pig_latin` works word by word and
      rejoins with single spaces. */
  lemma PigLatinWords(text: string)
    ensures var words := Words(text);
      Words(PigLatinText(text)) == seq(|words|, k requires 0 <= k < |words| => TranslateWord(words[k]))
  {
    var words := Words(text);
    var translated := seq(|words|, k requires 0 <= k < |words| => TranslateWord(words[k]));
    forall x | NoWhitespace(x) ensures NoWhitespace(PigWord(x)) {
      PigWordNoWhitespace(x);
    }
    forall k | 0 <= k < |words| ensures IsWord(translated[k]) {
      SegmentedNoWhitespace(words[k], PigWord);
      PigTokenEmpty(words[k]);
    }
    WordsOfJoin(translated);
  }

  /** Two words separated by one space are translated one by one. */
  lemma PigLatinOfTwoWords(x: string, y: string)
    requires IsWord(x) && IsWord(y)
    ensures PigLatinText(x + " " + y) == PigToken(x) + " " + PigToken(y)
  {
    var ws := [x, y];
    assert ws[1..] == [y];
    assert Join(ws) == x + " " + y;
    WordsOfJoin(ws);
    PigTokenEmpty(x);
    PigTokenEmpty(y);
    var translated := [PigToken(x), PigToken(y)];
    assert seq(|ws|, k requires 0 <= k < |ws| => TranslateWord(ws[k])) == translated;
    assert translated[1..] == [PigToken(y)];
    assert Join(translated) == PigToken(x) + " " + PigToken(y);
    assert PigLatinText(Join(ws)) == Join(translated);
  }

  /** Words joined by single spaces come back translated one by one and
      joined by single spaces. */
  lemma PigLatinOfJoin(ws: seq<string>)
    requires forall k :: 0 <= k < |ws| ==> IsWord(ws[k])
    ensures PigLatinText(Join(ws)) == Join(seq(|ws|, k requires 0 <= k < |ws| => PigToken(ws[k])))
  {
    WordsOfJoin(ws);
    forall k | 0 <= k < |ws| ensures TranslateWord(ws[k]) == PigToken(ws[k]) {
      PigTokenEmpty(ws[k]);
    }
    assert seq(|ws|, k requires 0 <= k < |ws| => TranslateWord(ws[k]))
        == seq(|ws|, k requires 0 <= k < |ws| => PigToken(ws[k]));
  }

  /** Text that is a single word is translated as that word. */
  lemma PigLatinOfOneWord(w: string)
    requires IsWord(w)
    ensures PigLatinText(w) == PigToken(w)
  {
    WordsOfWordThen(w, "");
    assert w + "" == w;
    PigTokenEmpty(w);
    var words := Words(w);
    assert seq(|words|, k requires 0 <= k < |words| => TranslateWord(words[k])) == [PigToken(w)];
  }
}

/** The behaviour the Pig Latin tests and demo inputs pin down, derived
    from the general model. Each lemma takes its input as a parameter equal
    to the literal, which keeps the verifier from evaluating the whole
    definition on the literal. */
module PigLatinExamples {
  import opened Text
  import opened PigLatin

  /** Checks written as recursion, so that on a literal the verifier
      unfolds them one character at a time. */
  predicate AllLowerAscii(s: string) {
    s == [] || ('a' <= s[0] <= 'z' && AllLowerAscii(s[1..]))
  }

  predicate NoVowelIn(s: string) {
    s == [] || (!IsVowel(s[0]) && NoVowelIn(s[1..]))
  }

  lemma {:induction false} AllLowerAsciiAt(s: string)
    requires AllLowerAscii(s)
    ensures forall k :: 0 <= k < |s| ==> 'a' <= s[k] <= 'z'
  {
    if s != [] {
      AllLowerAsciiAt(s[1..]);
      assert forall k :: 1 <= k < |s| ==> s[k] == s[1..][k - 1];
    }
  }

  lemma {:induction false} NoVowelInAt(s: string)
    requires NoVowelIn(s)
    ensures forall k :: 0 <= k < |s| ==> !IsVowel(s[k])
  {
    if s != [] {
      NoVowelInAt(s[1..]);
      assert forall k :: 1 <= k < |s| ==> s[k] == s[1..][k - 1];
    }
  }

  /** A lower-case word is a single run. */
  lemma LowerAsciiRun(s: string)
    requires s != [] && AllLowerAscii(s)
    ensures forall k :: 0 <= k < |s| ==> InRun(s[k])
    ensures IsWord(s)
  {
    AllLowerAsciiAt(s);
  }

  /** A lower-case word made of a consonant cluster without "qu" and a
      remainder that starts with a vowel rotates at the boundary. */
  lemma Rotation(w: string, cluster: string, rest: string, r: string)
    requires w == cluster + rest && r == rest + "-" + (cluster + "ay")
    requires AllLowerAscii(w) && cluster != [] && NoVowelIn(cluster)
    requires rest != [] && IsVowel(rest[0])
    requires cluster[|cluster| - 1] != 'q' || rest[0] != 'u'
    ensures PigWord(w) == r
  {
    AllLowerAsciiAt(w);
    NoVowelInAt(cluster);
    var m := |cluster|;
    assert forall k :: 0 <= k < m ==> w[k] == cluster[k];
    assert w[m] == rest[0];
    LowerAsciiRotation(w, m);
    assert w[..m] == cluster && w[m..] == rest;
  }

  /** The same word capitalised: the capital moves to the new first
      letter. */
  lemma CapitalRotation(w: string, cluster: string, rest: string, r: string, cw: string, cr: string)
    requires w == cluster + rest && r == rest + "-" + (cluster + "ay")
    requires AllLowerAscii(w) && cluster != [] && NoVowelIn(cluster)
    requires rest != [] && IsVowel(rest[0])
    requires cluster[|cluster| - 1] != 'q' || rest[0] != 'u'
    requires cw == Capitalise(w) && cr == Capitalise(r)
    ensures PigWord(cw) == cr
  {
    Rotation(w, cluster, rest, r);
    AllLowerAsciiAt(w);
    CapitalisationCommutes(w);
  }

  /** "first" gives "irst-fay". */
  lemma First(w: string)
    requires w == "first"
    ensures PigWord(w) == "irst-fay"
  {
    Rotation("first", "f", "irst", "irst-fay");
  }

  /** "First" keeps its capital: "Irst-fay". */
  lemma CapitalFirst(w: string)
    requires w == "First"
    ensures PigWord(w) == "Irst-fay"
  {
    CapitalRotation("first", "f", "irst", "irst-fay", "First", "Irst-fay");
  }

  /** "the" gives "e-thay". */
  lemma TheLower(w: string)
    requires w == "the"
    ensures PigWord(w) == "e-thay"
  {
    Rotation("the", "th", "e", "e-thay");
  }

  /** "The", from the sentence test, capitalises what is left: "E-thay". */
  lemma The(w: string)
    requires w == "The"
    ensures PigWord(w) == "E-thay"
  {
    CapitalRotation("the", "th", "e", "e-thay", "The", "E-thay");
  }

  /** "hello" gives "ello-hay". */
  lemma Hello(w: string)
    requires w == "hello"
    ensures PigWord(w) == "ello-hay"
  {
    Rotation("hello", "h", "ello", "ello-hay");
  }

  /** "school" moves the whole cluster: "ool-schay". */
  lemma School(w: string)
    requires w == "school"
    ensures PigWord(w) == "ool-schay"
  {
    Rotation("school", "sch", "ool", "ool-schay");
  }

  /** "quick" takes the "qu" together: "ick-quay". */
  lemma Quick(w: string)
    requires w == "quick"
    ensures PigWord(w) == "ick-quay"
  {
    LowerAsciiRotation(w, 1);
    assert QuAt(w, 1);
    assert w[2..] == "ick" && w[..2] == "qu";
  }

  /** "don't" keeps its apostrophe in the remainder: "on't-day". */
  lemma Dont(w: string)
    requires w == "don't"
    ensures PigWord(w) == "on't-day"
  {
    PigWordOfConsonantStart(w);
    assert FirstVowel(w[1..]) == 0;
    assert FirstVowel(w) == 1;
    assert w[..1] == "d";
    assert ClusterLength(w) == 1;
    assert w[1..] == "on't";
  }

  /** An apostrophe inside the cluster is cut off but not counted, so the
      cluster is cut one character short: "c'mon" gives "mon-c'ay", not
      "on-c'may". */
  lemma ApostropheInCluster(w: string)
    requires w == "c'mon"
    ensures PigWord(w) == "mon-c'ay"
  {
    ApostropheCluster(w);
    PigWordOfConsonantStart(w);
    assert w[2..] == "mon" && w[..2] == "c'";
    assert LowerStr("c'") == "c'";
  }

  lemma ApostropheCluster(w: string)
    requires w == "c'mon"
    ensures IsConsonant(w[0]) && !IsUppercase(w[0]) && ClusterLength(w) == 2
  {
    assert !IsVowel(w[0]) && !IsVowel(w[1]) && !IsVowel(w[2]) && IsVowel(w[3]);
    FirstVowelIs(w, 3);
    assert w[..3] == "c'm";
    assert Consonants("m") == 1;
    assert Consonants("'m") == 1;
    assert Consonants("c'm") == 2;
    assert !QuAt(w, 3);
  }

  lemma Well(w: string)
    requires w == "well"
    ensures PigWord(w) == "ell-way"
  {
    Rotation("well", "w", "ell", "ell-way");
  }

  /** The second half of "well-known", a step of `WellKnown`. */
  lemma Known(w: string)
    requires w == "known"
    ensures PigWord(w) == "own-knay"
  {
    Rotation("known", "kn", "own", "own-knay");
  }

  lemma WellKnownToken(text: string, well: string, known: string)
    requires text == "well-known" && well == "well" && known == "known"
    ensures PigToken(text) == PigWord(well) + "-" + PigWord(known)
  {
    assert text == well + ['-'] + known;
    PigTokenCopiesSeparator(well, '-', known);
    LowerAsciiRun("well");
    LowerAsciiRun("known");
    PigTokenOfRun(well);
    PigTokenOfRun(known);
  }

  lemma HyphenJoin(a: string, b: string)
    requires a == "ell-way" && b == "own-knay"
    ensures a + "-" + b == "ell-way-own-knay"
  {
  }

  /** The hyphenated test: "well-known" gives "ell-way-own-knay". */
  lemma WellKnown(text: string)
    requires text == "well-known"
    ensures PigLatinText(text) == "ell-way-own-knay"
  {
    assert IsWord(text);
    PigLatinOfOneWord(text);
    var well, known := "well", "known";
    WellKnownToken(text, well, known);
    Well(well);
    Known(known);
    HyphenJoin(PigWord(well), PigWord(known));
  }

  /** "world" gives "orld-way". */
  lemma World(w: string)
    requires w == "world"
    ensures PigWord(w) == "orld-way"
  {
    Rotation("world", "w", "orld", "orld-way");
  }

  lemma SpaceJoin(a: string, b: string)
    requires a == "ello-hay" && b == "orld-way"
    ensures a + " " + b == "ello-hay orld-way"
  {
  }

  lemma HelloWorldWords(text: string, hello: string, world: string)
    requires text == "hello world" && hello == "hello" && world == "world"
    ensures text == hello + " " + world
    ensures forall k :: 0 <= k < |hello| ==> InRun(hello[k])
    ensures forall k :: 0 <= k < |world| ==> InRun(world[k])
    ensures IsWord(hello) && IsWord(world)
  {
    LowerAsciiRun("hello");
    LowerAsciiRun("world");
  }

  /** The sentence test: "hello world" gives "ello-hay orld-way". */
  lemma HelloWorld(text: string)
    requires text == "hello world"
    ensures PigLatinText(text) == "ello-hay orld-way"
  {
    var hello, world := "hello", "world";
    HelloWorldWords(text, hello, world);
    PigLatinOfTwoWords(hello, world);
    PigTokenOfRun(hello);
    PigTokenOfRun(world);
    Hello(hello);
    World(world);
    SpaceJoin(PigWord(hello), PigWord(world));
  }

  /** A word without letters is left alone: "123" stays "123". */
  lemma Digits(w: string)
    requires w == "123"
    ensures PigWord(w) == "123"
  {
    PigWordSimpleCases(w);
  }

  /** Four words joined by single spaces. */
  lemma JoinFour(a: string, b: string, c: string, d: string)
    ensures Join([a, b, c, d]) == a + " " + b + " " + c + " " + d
  {
    var ws := [a, b, c, d];
    assert ws[1..] == [b, c, d] && ws[1..][1..] == [c, d] && ws[1..][1..][1..] == [d];
    assert Join([c, d]) == c + " " + d;
    assert Join([b, c, d]) == b + " " + (c + " " + d);
    assert Join(ws) == a + " " + (b + " " + (c + " " + d));
  }

  /** "brown" gives "own-bray". */
  lemma Brown(w: string)
    requires w == "brown"
    ensures PigWord(w) == "own-bray"
  {
    Rotation("brown", "br", "own", "own-bray");
  }

  /** "fox" gives "ox-fay". */
  lemma Fox(w: string)
    requires w == "fox"
    ensures PigWord(w) == "ox-fay"
  {
    Rotation("fox", "f", "ox", "ox-fay");
  }

  /** "The" is a single run of letters. */
  lemma TheRun(w: string)
    requires w == "The"
    ensures w != [] && forall k :: 0 <= k < |w| ==> InRun(w[k])
    ensures IsWord(w)
  {
    LowerAsciiRun("he");
    assert w == ['T'] + "he";
  }

  /** "The" as a token of the sentence: a single run, translated whole. */
  lemma TheToken(w: string)
    requires w == "The"
    ensures PigToken(w) == "E-thay"
  {
    TheRun(w);
    PigTokenOfRun(w);
    The(w);
  }

  lemma QuickToken(w: string)
    requires w == "quick"
    ensures PigToken(w) == "ick-quay"
  {
    LowerAsciiRun("quick");
    PigTokenOfRun(w);
    Quick(w);
  }

  lemma BrownToken(w: string)
    requires w == "brown"
    ensures PigToken(w) == "own-bray"
  {
    LowerAsciiRun("brown");
    PigTokenOfRun(w);
    Brown(w);
  }

  lemma FoxToken(w: string)
    requires w == "fox"
    ensures PigToken(w) == "ox-fay"
  {
    LowerAsciiRun("fox");
    PigTokenOfRun(w);
    Fox(w);
  }

  /** The sentence is its four words joined by single spaces. */
  lemma SentenceIsJoin()
    ensures Join(["The", "quick", "brown", "fox"]) == "The quick brown fox"
  {
    JoinFour("The", "quick", "brown", "fox");
  }

  /** The four words of the sentence are words. */
  lemma SentenceWords()
    ensures IsWord("The") && IsWord("quick") && IsWord("brown") && IsWord("fox")
  {
    TheRun("The");
    LowerAsciiRun("quick");
    LowerAsciiRun("brown");
    LowerAsciiRun("fox");
  }

  /** The translated words of the sentence, joined. */
  lemma SentenceResultJoin(a: string, b: string, c: string, d: string)
    requires a == "E-thay" && b == "ick-quay" && c == "own-bray" && d == "ox-fay"
    ensures Join([a, b, c, d]) == "E-thay ick-quay own-bray ox-fay"
  {
    JoinFour(a, b, c, d);
  }

  /** Four words joined by single spaces are translated one by one. */
  lemma PigLatinOfFourWords(a: string, b: string, c: string, d: string)
    requires IsWord(a) && IsWord(b) && IsWord(c) && IsWord(d)
    ensures PigLatinText(Join([a, b, c, d])) == Join([PigToken(a), PigToken(b), PigToken(c), PigToken(d)])
  {
    var ws := [a, b, c, d];
    PigLatinOfJoin(ws);
    assert seq(|ws|, k requires 0 <= k < |ws| => PigToken(ws[k])) == [PigToken(a), PigToken(b), PigToken(c), PigToken(d)];
  }

  /** The second sentence test: "The quick brown fox" gives
      "E-thay ick-quay own-bray ox-fay". */
  lemma QuickBrownFox(text: string)
    requires text == "The quick brown fox"
    ensures PigLatinText(text) == "E-thay ick-quay own-bray ox-fay"
  {
    var the, quick, brown, fox := "The", "quick", "brown", "fox";
    SentenceIsJoin();
    SentenceWords();
    TheToken(the);
    QuickToken(quick);
    BrownToken(brown);
    FoxToken(fox);
    PigLatinOfFourWords(the, quick, brown, fox);
    SentenceResultJoin(PigToken(the), PigToken(quick), PigToken(brown), PigToken(fox));
  }

  /** A consonant before a vowel outside ASCII: "café" gives "afé-cay". */
  lemma Cafe(w: string)
    requires w == "café"
    ensures PigWord(w) == "afé-cay"
  {
    PigWordOfConsonantStart(w);
    FirstVowelIs(w, 1);
    assert w[..1] == "c";
    assert ClusterLength(w) == 1;
    assert w[1..] == "afé";
  }

  /** A word starting with an accented vowel: "émigré" gives "émigré-hay". */
  lemma Emigre(w: string)
    requires w == "émigré"
    ensures PigWord(w) == "émigré-hay"
  {
    PigWordSimpleCases(w);
    assert IsVowel(w[0]);
  }

  /** "eat" gives "eat-hay". */
  lemma Eat(w: string)
    requires w == "eat"
    ensures PigWord(w) == "eat-hay"
  {
    PigWordSimpleCases(w);
    assert IsVowel(w[0]);
  }

  /** A capital vowel keeps its case: "Apple" gives "Apple-hay". */
  lemma CapitalApple(w: string)
    requires w == "Apple"
    ensures PigWord(w) == "Apple-hay"
  {
    PigWordSimpleCases(w);
    assert IsVowel(w[0]);
  }

  /** "apple" starts with a vowel: "apple-hay". */
  lemma Apple(w: string)
    requires w == "apple"
    ensures PigWord(w) == "apple-hay"
  {
    PigWordSimpleCases(w);
    assert IsVowel(w[0]);
  }
}

/** "The Twelve Days of Christmas": two nested loops print twelve verses,
    verse `i` counting its gifts down from `gifts[i]` to `gifts[0]`. The
    printed output is modelled as the sequence of lines written. */
module TwelveDays {

  const Gifts: seq<string> := [
    "A partridge in a pear tree",
    "Two turtle doves",
    "Three french hens",
    "Four calling birds",
    "Five gold rings",
    "Six geese a-laying",
    "Seven swans a-swimming",
    "Eight maids a-milking",
    "Nine ladies dancing",
    "Ten lords a-leaping",
    "Eleven pipers piping",
    "Twelve drummers drumming"
  ]

  const Days: seq<string> := [
    "first", "second", "third", "fourth", "fifth", "sixth", "seventh", "eighth", "ninth", "tenth",
    "eleventh", "twelfth"
  ]

  /** The line the inner loop prints for gift `j` of verse `i`: "And "
      comes before the partridge of every verse but the first, and every
      other gift ends with a comma. */
  function GiftLine(i: nat, j: nat): string
    requires j <= i < 12
  {
    (if j == 0 && i > 0 then "And " else "") + Gifts[j] + (if j == 0 then "" else ",")
  }

  /** The gift lines of verse `i` printed so far when the inner loop has
      come down to gift `j`: gifts `i`, `i - 1`, ..., `j`. */
  function GiftsFrom(i: nat, j: nat): seq<string>
    requires j <= i + 1 && i < 12
    decreases i + 1 - j
  {
    if j > i then [] else GiftsFrom(i, j + 1) + [GiftLine(i, j)]
  }

  /** The three lines that open verse `i`: the blank line of the leading
      "\n", the day and the refrain. */
  function VerseHead(i: nat): seq<string>
    requires i < 12
  {
    ["", "On the " + Days[i] + " day of Christmas,", "My true love sent to me"]
  }

  function Verse(i: nat): seq<string>
    requires i < 12
  {
    VerseHead(i) + GiftsFrom(i, 0)
  }

  /** The first `n` verses, in order. */
  function Song(n: nat): seq<string>
    requires n <= 12
  {
    if n == 0 then [] else Song(n - 1) + Verse(n - 1)
  }

  /** The program's `main`. */
  method Sing() returns (lines: seq<string>)
    ensures lines == Song(12)
  {
    lines := [];
    for i := 0 to 12
      invariant lines == Song(i)
    {
      lines := lines + ["", "On the " + Days[i] + " day of Christmas,"];
      lines := lines + ["My true love sent to me"];
      var j := i + 1;
      while j > 0
        invariant 0 <= j <= i + 1
        invariant lines == Song(i) + VerseHead(i) + GiftsFrom(i, j)
      {
        j := j - 1;
        var line := if j == 0 && i > 0 then "And " else "";
        if j == 0 {
          line := line + Gifts[j];
        } else {
          line := line + Gifts[j] + ",";
        }
        assert line == GiftLine(i, j);
        lines := lines + [line];
      }
    }
  }

  /** Verse `i` has its three opening lines and then `i + 1` gift lines. */
  lemma {:induction false} GiftsFromLength(i: nat, j: nat)
    requires j <= i + 1 && i < 12
    ensures |GiftsFrom(i, j)| == i + 1 - j
    decreases i + 1 - j
  {
    if j <= i {
      GiftsFromLength(i, j + 1);
    }
  }

  /** The `k`-th gift line (from 0) of what the inner loop printed down to
      gift `j` names gift `i - k`. */
  lemma {:induction false} GiftsFromAt(i: nat, j: nat, k: nat)
    requires j <= i < 12 && k <= i - j
    ensures |GiftsFrom(i, j)| == i + 1 - j
    ensures GiftsFrom(i, j)[k] == GiftLine(i, i - k)
    decreases i + 1 - j
  {
    GiftsFromLength(i, j);
    if k < i - j {
      GiftsFromAt(i, j + 1, k);
    } else {
      GiftsFromLength(i, j + 1);
    }
  }

  /** The shape of every verse: a blank line, the day line, the refrain,
      then gifts `i` down to 0; only the last gift line lacks the comma,
      and only in verses after the first does it start with "And ". */
  lemma VerseShape(i: nat, k: nat)
    requires i < 12 && k <= i
    ensures |Verse(i)| == i + 4
    ensures Verse(i)[0] == ""
    ensures Verse(i)[1] == "On the " + Days[i] + " day of Christmas,"
    ensures Verse(i)[2] == "My true love sent to me"
    ensures k < i ==> Verse(i)[3 + k] == Gifts[i - k] + ","
    ensures k == i ==> Verse(i)[3 + k] == (if i > 0 then "And " else "") + Gifts[0]
  {
    GiftsFromAt(i, 0, k);
  }

  /** The first verse has a single gift line, the partridge. */
  lemma FirstVerse()
    ensures Verse(0) == ["", "On the first day of Christmas,", "My true love sent to me",
                         "A partridge in a pear tree"]
  {
    assert VerseHead(0)[1] == "On the first day of Christmas,";
    assert GiftLine(0, 0) == "A partridge in a pear tree";
    assert GiftsFrom(0, 1) == [];
    assert GiftsFrom(0, 0) == [] + [GiftLine(0, 0)];
  }

  /** The index of the line at which verse `i` starts. */
  function VerseStart(i: nat): nat {
    if i == 0 then 0 else VerseStart(i - 1) + i + 3
  }

  lemma {:induction false} VerseStartMonotone(i: nat, j: nat)
    requires i <= j
    ensures VerseStart(i) <= VerseStart(j)
    decreases j - i
  {
    if i < j {
      VerseStartMonotone(i, j - 1);
    }
  }

  lemma VerseLength(i: nat)
    requires i < 12
    ensures |Verse(i)| == i + 4
  {
    GiftsFromLength(i, 0);
  }

  /** The first `n` verses take `VerseStart(n)` lines. */
  lemma {:induction false} SongLines(n: nat)
    requires n <= 12
    ensures |Song(n)| == VerseStart(n)
  {
    if n > 0 {
      SongLines(n - 1);
      VerseLength(n - 1);
    }
  }

  lemma SliceOfConcat(a: seq<string>, b: seq<string>, lo: nat, hi: nat)
    requires lo <= hi <= |a|
    ensures (a + b)[lo..hi] == a[lo..hi]
    ensures (a + b)[|a|..] == b
  {
  }

  /** The output is the twelve verses back to back: verse `i` occupies the
      lines from `VerseStart(i)` up to `VerseStart(i + 1)`. */
  lemma {:induction false} VerseInSong(n: nat, i: nat)
    requires i < n <= 12
    ensures VerseStart(i + 1) <= |Song(n)|
    ensures Song(n)[VerseStart(i)..VerseStart(i + 1)] == Verse(i)
  {
    SongLines(n);
    SongLines(n - 1);
    var prefix, last := Song(n - 1), Verse(n - 1);
    assert Song(n) == prefix + last;
    VerseLength(n - 1);
    if i < n - 1 {
      VerseInSong(n - 1, i);
      VerseStartMonotone(i + 1, n - 1);
      SliceOfConcat(prefix, last, VerseStart(i), VerseStart(i + 1));
    } else {
      SliceOfConcat(prefix, last, 0, 0);
      assert (prefix + last)[|prefix|..] == (prefix + last)[VerseStart(i)..VerseStart(i + 1)];
    }
  }

  /** The whole song is 114 lines. */
  lemma SongLength(n: nat)
    requires n == 12
    ensures |Song(n)| == 114
  {
    SongLines(n);
    VerseStartClosed(n);
  }

  /** Verse `n` starts after 3 + 4 + ... + (n + 3) lines. */
  lemma {:induction false} VerseStartClosed(n: nat)
    ensures 2 * VerseStart(n) == n * (n + 7)
  {
    if n > 0 {
      VerseStartClosed(n - 1);
      assert (n - 1) * (n + 6) == n * n + 5 * n - 6;
      assert n * (n + 7) == n * n + 7 * n;
    }
  }
}

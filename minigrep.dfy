/** The `minigrep` library: building a `Config` from the command-line
    arguments, and the two line searches. `run`, which reads the file and
    prints, is not part of this model; the `IGNORE_CASE` environment lookup
    becomes the parameter `ignoreCaseEnv`. */
module Minigrep {
  import opened Common
  import opened Text

  datatype Config = Config(query: string, filePath: string, ignoreCase: bool)

  /** `flag.parse::<bool>().is_ok()`: Rust's `bool::from_str` accepts
      exactly "true" and "false". */
  predicate ParsesAsBool(flag: string) {
    flag == "true" || flag == "false"
  }

  /** `Config::build(args)`: skip the program name, then take the query,
      the file path and an optional case flag, in that order. The flag only
      has to parse as a `bool`, so "false" also turns case-insensitivity
      on. Any further arguments are never looked at. */
  function Build(args: seq<string>, ignoreCaseEnv: bool): (r: Result<Config, string>)
    ensures r == Err("Didn't get a query string") <==> |args| <= 1
    ensures r == Err("Didn't get a file path string") <==> |args| == 2
    ensures r.Ok? <==> |args| >= 3
    ensures r.Ok? ==> r.value.query == args[1] && r.value.filePath == args[2]
    ensures r.Ok? && |args| >= 4 ==> (r.value.ignoreCase <==> ParsesAsBool(args[3]))
    ensures r.Ok? && |args| == 3 ==> r.value.ignoreCase == ignoreCaseEnv
  {
    var afterProgram := if args == [] then [] else args[1..];
    if afterProgram == [] then Err("Didn't get a query string")
    else
      var query, afterQuery := afterProgram[0], afterProgram[1..];
      if afterQuery == [] then Err("Didn't get a file path string")
      else
        var filePath, afterPath := afterQuery[0], afterQuery[1..];
        var ignoreCase := if afterPath != [] then ParsesAsBool(afterPath[0]) else ignoreCaseEnv;
        Ok(Config(query, filePath, ignoreCase))
  }

  /** Arguments after the fourth are ignored. */
  lemma BuildIgnoresExtraArguments(args: seq<string>, extra: seq<string>, ignoreCaseEnv: bool)
    requires |args| >= 4
    ensures Build(args + extra, ignoreCaseEnv) == Build(args, ignoreCaseEnv)
  {
  }

  /** The documented examples: three arguments give query and path with the
      environment deciding the case flag; "true" turns it on, and so does
      "false". */
  lemma BuildExamples(env: bool)
    ensures Build(["minigrep", "rust", "example.txt"], env) == Ok(Config("rust", "example.txt", env))
    ensures Build(["minigrep", "rust", "example.txt", "true"], env) == Ok(Config("rust", "example.txt", true))
    ensures Build(["minigrep", "rust", "example.txt", "false"], env) == Ok(Config("rust", "example.txt", true))
    ensures Build(["minigrep", "rust", "example.txt", "yes"], env) == Ok(Config("rust", "example.txt", false))
  {
  }

  /** The length of the text before the first '\n' of `s` (all of `s` if it
      has none). */
  function LineLength(s: string): (n: nat)
    ensures n <= |s|
    ensures forall k :: 0 <= k < n ==> s[k] != '\n'
    ensures n < |s| ==> s[n] == '\n'
  {
    if s == [] || s[0] == '\n' then 0 else 1 + LineLength(s[1..])
  }

  /** Removes one trailing carriage return. */
  function StripCarriageReturn(line: string): string {
    if line != [] && line[|line| - 1] == '\r' then line[..|line| - 1] else line
  }

  /** `str::lines`: split at every '\n', drop a '\r' that precedes it, and
      yield no empty last line for a final line ending. */
  function Lines(s: string): (lines: seq<string>)
    ensures forall k :: 0 <= k < |lines| ==> '\n' !in lines[k]
    decreases |s|
  {
    if s == [] then []
    else
      var n := LineLength(s);
      if n == |s| then [s]
      else [StripCarriageReturn(s[..n])] + Lines(s[n + 1..])
  }

  /** `haystack.contains(needle)`: `needle` occurs at some offset. */
  predicate Contains(haystack: string, needle: string) {
    needle <= haystack || (haystack != [] && Contains(haystack[1..], needle))
  }

  /** The lines of `lines` that `keep` accepts, in their original order
      (`filter(...).collect()`). */
  function Keep(lines: seq<string>, keep: string -> bool): seq<string> {
    if lines == [] then []
    else (if keep(lines[0]) then [lines[0]] else []) + Keep(lines[1..], keep)
  }

  /** `search(query, content)`: the lines that contain `query`. */
  function Search(query: string, content: string): seq<string> {
    Keep(Lines(content), line => Contains(line, query))
  }

  /** `search_case_insensitive(query, content)`: the lines, unchanged, whose
      lower-case form contains the lower-cased query. */
  function SearchCaseInsensitive(query: string, content: string): seq<string> {
    Keep(Lines(content), line => Contains(LowerStr(line), LowerStr(query)))
  }

  /** `sub` is `s` with some elements left out, the rest in order. */
  predicate IsSubsequence(sub: seq<string>, s: seq<string>)
    decreases |s|
  {
    if sub == [] then true
    else if s == [] then false
    else (sub[0] == s[0] && IsSubsequence(sub[1..], s[1..])) || IsSubsequence(sub, s[1..])
  }

  /** A filter keeps a subsequence of its input. */
  lemma {:induction false} KeepIsSubsequence(lines: seq<string>, keep: string -> bool)
    ensures IsSubsequence(Keep(lines, keep), lines)
  {
    if lines != [] {
      KeepIsSubsequence(lines[1..], keep);
      if keep(lines[0]) {
        assert Keep(lines, keep) == [lines[0]] + Keep(lines[1..], keep);
      } else {
        assert Keep(lines, keep) == Keep(lines[1..], keep);
      }
    }
  }

  /** A filter keeps exactly the accepted lines, each as often as it
      occurs. */
  lemma {:induction false} KeepCounts(lines: seq<string>, keep: string -> bool)
    ensures forall x :: multiset(Keep(lines, keep))[x] == if keep(x) then multiset(lines)[x] else 0
  {
    if lines != [] {
      KeepCounts(lines[1..], keep);
      assert lines == [lines[0]] + lines[1..];
      assert multiset(lines) == multiset([lines[0]]) + multiset(lines[1..]);
    }
  }

  lemma KeepMembers(lines: seq<string>, keep: string -> bool)
    ensures forall x :: x in Keep(lines, keep) <==> x in lines && keep(x)
  {
    KeepCounts(lines, keep);
    forall x ensures x in Keep(lines, keep) <==> x in lines && keep(x) {
      assert x in Keep(lines, keep) <==> multiset(Keep(lines, keep))[x] > 0;
      assert x in lines <==> multiset(lines)[x] > 0;
    }
  }

  /** A filter that accepts every line keeps them all. */
  lemma {:induction false} KeepAll(lines: seq<string>, keep: string -> bool)
    requires forall x :: x in lines ==> keep(x)
    ensures Keep(lines, keep) == lines
  {
    if lines != [] {
      KeepAll(lines[1..], keep);
    }
  }

  /** A weaker filter keeps more: what `strict` keeps is a subsequence of
      what `loose` keeps. */
  lemma {:induction false} KeepMonotone(lines: seq<string>, strict: string -> bool, loose: string -> bool)
    requires forall x :: strict(x) ==> loose(x)
    ensures IsSubsequence(Keep(lines, strict), Keep(lines, loose))
  {
    if lines != [] {
      KeepMonotone(lines[1..], strict, loose);
      var rest, restLoose := Keep(lines[1..], strict), Keep(lines[1..], loose);
      if strict(lines[0]) {
        assert Keep(lines, strict) == [lines[0]] + rest;
        assert Keep(lines, loose) == [lines[0]] + restLoose;
      } else if loose(lines[0]) {
        assert Keep(lines, strict) == rest;
        assert Keep(lines, loose) == [lines[0]] + restLoose;
        assert ([lines[0]] + restLoose)[1..] == restLoose;
      } else {
        assert Keep(lines, strict) == rest;
        assert Keep(lines, loose) == restLoose;
      }
    }
  }

  /** `search` returns exactly the lines of the content that contain the
      query, in their original order. */
  lemma SearchSpec(query: string, content: string)
    ensures IsSubsequence(Search(query, content), Lines(content))
    ensures forall x :: x in Search(query, content) <==> x in Lines(content) && Contains(x, query)
    ensures forall x :: multiset(Search(query, content))[x] ==
                          if Contains(x, query) then multiset(Lines(content))[x] else 0
  {
    KeepIsSubsequence(Lines(content), line => Contains(line, query));
    KeepMembers(Lines(content), line => Contains(line, query));
    KeepCounts(Lines(content), line => Contains(line, query));
  }

  /** `search_case_insensitive` returns the original lines whose lower-case
      form contains the lower-cased query, in their original order. */
  lemma SearchCaseInsensitiveSpec(query: string, content: string)
    ensures IsSubsequence(SearchCaseInsensitive(query, content), Lines(content))
    ensures forall x :: x in SearchCaseInsensitive(query, content) <==>
                          x in Lines(content) && Contains(LowerStr(x), LowerStr(query))
    ensures forall x :: multiset(SearchCaseInsensitive(query, content))[x] ==
                          if Contains(LowerStr(x), LowerStr(query)) then multiset(Lines(content))[x] else 0
  {
    KeepIsSubsequence(Lines(content), line => Contains(LowerStr(line), LowerStr(query)));
    KeepMembers(Lines(content), line => Contains(LowerStr(line), LowerStr(query)));
    KeepCounts(Lines(content), line => Contains(LowerStr(line), LowerStr(query)));
  }

  /** Every string contains the empty string, so an empty query matches
      every line, in either search. */
  lemma {:induction false} ContainsEmpty(s: string)
    ensures Contains(s, "")
  {
  }

  lemma EmptyQueryMatchesAll(content: string)
    ensures Search("", content) == Lines(content)
    ensures SearchCaseInsensitive("", content) == Lines(content)
  {
    forall x | x in Lines(content) ensures Contains(x, "") && Contains(LowerStr(x), LowerStr("")) {
      ContainsEmpty(x);
      ContainsEmpty(LowerStr(x));
    }
    KeepAll(Lines(content), line => Contains(line, ""));
    KeepAll(Lines(content), line => Contains(LowerStr(line), LowerStr("")));
  }

  /** Lower-casing both sides keeps an occurrence an occurrence. */
  lemma {:induction false} ContainsLower(haystack: string, needle: string)
    requires Contains(haystack, needle)
    ensures Contains(LowerStr(haystack), LowerStr(needle))
  {
    if needle <= haystack {
      assert LowerStr(needle) <= LowerStr(haystack);
    } else {
      ContainsLower(haystack[1..], needle);
      assert LowerStr(haystack)[1..] == LowerStr(haystack[1..]);
    }
  }

  /** Every line the case-sensitive search finds, the case-insensitive one
      finds too, in the same order. */
  lemma SearchWithinCaseInsensitive(query: string, content: string)
    ensures IsSubsequence(Search(query, content), SearchCaseInsensitive(query, content))
  {
    forall line | Contains(line, query) ensures Contains(LowerStr(line), LowerStr(query)) {
      ContainsLower(line, query);
    }
    KeepMonotone(Lines(content), line => Contains(line, query),
                 line => Contains(LowerStr(line), LowerStr(query)));
  }
}

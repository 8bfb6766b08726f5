/** The statistics exercise: the median and the modes of a list of `i32`.
    `median` sorts the caller's vector in place before picking the middle;
    `mode` counts occurrences in a hash map and returns every value whose
    count is the largest, sorted. The `f64` median is modelled as a `real`:
    the mean of two `i32` values is exact in `f64`, so nothing is lost. */
module Statistics {
  import opened Common
  import opened Sorting

  function LeI32(x: i32, y: i32): bool {
    x <= y
  }

  ghost predicate Sorted(s: seq<i32>) {
    forall p, q :: 0 <= p < q < |s| ==> s[p] <= s[q]
  }

  ghost predicate StrictlyIncreasing(s: seq<i32>) {
    forall p, q :: 0 <= p < q < |s| ==> s[p] < s[q]
  }

  lemma LeI32IsTotalPreorder()
    ensures TotalPreorder(LeI32)
  {
  }

  /** The value `median` reads off an ascending list: 0 for the empty list,
      the middle element for an odd length, the mean of the two middle
      elements for an even length. */
  function Middle(s: seq<i32>): real {
    if |s| == 0 then 0.0
    else if |s| % 2 == 1 then s[|s| / 2] as real
    else (s[|s| / 2 - 1] as real + s[|s| / 2] as real) / 2.0
  }

  /** `median(numbers)`: sorts `numbers` in place, then takes the middle. */
  method Median(numbers: array<i32>) returns (m: real)
    modifies numbers
    ensures Sorted(numbers[..])
    ensures multiset(numbers[..]) == old(multiset(numbers[..]))
    ensures m == Middle(numbers[..])
  {
    if numbers.Length == 0 {
      return 0.0;
    }
    LeI32IsTotalPreorder();
    SortInPlace(numbers, LeI32);
    assert Sorted(numbers[..]) by {
      forall p, q | 0 <= p < q < numbers.Length ensures numbers[p] <= numbers[q] {
        assert LeI32(numbers[..][p], numbers[..][q]);
      }
    }
    var len := numbers.Length;
    if len % 2 == 1 {
      m := numbers[len / 2] as real;
    } else {
      var mid1 := numbers[len / 2 - 1] as real;
      var mid2 := numbers[len / 2] as real;
      m := (mid1 + mid2) / 2.0;
    }
  }

  /** A median splits an ascending list in two: the lower half (with the
      middle element, for an odd length) lies at or below it and the upper
      half at or above it. */
  lemma MiddleSplitsSorted(s: seq<i32>, k: nat)
    requires Sorted(s) && k < |s|
    ensures k < (|s| + 1) / 2 ==> s[k] as real <= Middle(s)
    ensures |s| / 2 <= k ==> Middle(s) <= s[k] as real
  {
    var n := |s|;
    if n % 2 == 0 {
      assert s[n / 2 - 1] <= s[n / 2];
      if k < n / 2 - 1 {
        assert s[k] <= s[n / 2 - 1];
      } else if k > n / 2 {
        assert s[n / 2] <= s[k];
      }
    } else {
      if k < n / 2 {
        assert s[k] <= s[n / 2];
      } else if k > n / 2 {
        assert s[n / 2] <= s[k];
      }
    }
  }

  /** Two ascending lists with the same elements are equal, so the value
      `median` returns depends only on the multiset of its input, not on
      the order the caller supplied. */
  lemma {:induction false} SortedPermutationUnique(a: seq<i32>, b: seq<i32>)
    requires Sorted(a) && Sorted(b)
    requires multiset(a) == multiset(b)
    ensures a == b
  {
    if a != [] {
      assert |b| == |a| by {
        assert |multiset(a)| == |a| && |multiset(b)| == |b|;
      }
      FirstIsLeast(a, b[0]);
      FirstIsLeast(b, a[0]);
      assert a[0] == b[0];
      DropFirst(a);
      DropFirst(b);
      SortedPermutationUnique(a[1..], b[1..]);
      HeadTail(a);
      HeadTail(b);
    }
  }

  /** Dropping the first element of an ascending list leaves an ascending
      list with that one occurrence fewer. */
  lemma DropFirst(a: seq<i32>)
    requires a != [] && Sorted(a)
    ensures Sorted(a[1..])
    ensures multiset(a[1..]) == multiset(a) - multiset{a[0]}
  {
    assert a == [a[0]] + a[1..];
    assert multiset(a) == multiset{a[0]} + multiset(a[1..]);
  }

  /** The first element of an ascending list is its least. */
  lemma FirstIsLeast(a: seq<i32>, x: i32)
    requires Sorted(a) && x in multiset(a)
    ensures a[0] <= x
  {
    var k :| 0 <= k < |a| && a[k] == x;
    assert k == 0 || a[0] <= a[k];
  }

  /** `median` is well defined: every ascending arrangement of the same
      values has the same middle. */
  lemma MedianOfPermutation(a: seq<i32>, b: seq<i32>)
    requires Sorted(a) && Sorted(b) && multiset(a) == multiset(b)
    ensures Middle(a) == Middle(b)
  {
    SortedPermutationUnique(a, b);
  }

  /** The median examples of the unit tests: [1, 3, 5] gives 3, [1, 2, 3, 4]
      gives 2.5, and the empty list gives 0. */
  method MedianExamples() returns (odd: real, even: real, empty: real)
    ensures odd == 3.0 && even == 2.5 && empty == 0.0
  {
    odd := MedianOfList([1, 3, 5]);
    even := MedianOfList([1, 2, 3, 4]);
    empty := MedianOfList([]);
  }

  /** `median` on a fresh vector holding the ascending `values`. */
  method MedianOfList(values: seq<i32>) returns (m: real)
    requires Sorted(values)
    ensures m == Middle(values)
  {
    var a := new i32[|values|](k requires 0 <= k < |values| => values[k]);
    assert a[..] == values;
    m := Median(a);
    SortedPermutationUnique(a[..], values);
  }

  /** `x` is a mode of `numbers`: it occurs, and no value occurs more
      often. */
  ghost predicate IsMode(numbers: seq<i32>, x: i32) {
    x in numbers && forall y :: y in numbers ==> multiset(numbers)[y] <= multiset(numbers)[x]
  }

  /** `mode(numbers)`: counts every value in a frequency map, finds the
      largest count, collects the values that have it and sorts them. */
  method Mode(numbers: seq<i32>) returns (modes: seq<i32>)
    ensures forall x :: x in modes <==> IsMode(numbers, x)
    ensures StrictlyIncreasing(modes)
    ensures |numbers| > 0 ==> |modes| > 0
  {
    if |numbers| == 0 {
      return [];
    }
    var frequency := CountFrequencies(numbers);
    assert numbers[0] in frequency;
    var maxFrequency := MaxFrequency(frequency);
    var collected := CollectWithCount(frequency, maxFrequency);

    // `modes.sort()`
    var sorted := new i32[|collected|](k requires 0 <= k < |collected| => collected[k]);
    assert sorted[..] == collected;
    LeI32IsTotalPreorder();
    SortInPlace(sorted, LeI32);
    modes := sorted[..];
    DistinctSortedIsStrictlyIncreasing(collected, modes);
    forall x ensures x in modes <==> IsMode(numbers, x) {
      assert x in modes <==> x in multiset(modes);
    }
    var top :| top in frequency && frequency[top] == maxFrequency;
    assert top in collected;
  }

  /** The counting loop of `mode`: `*frequency_map.entry(num).or_insert(0)
      += 1` for every element. */
  method CountFrequencies(numbers: seq<i32>) returns (frequency: map<i32, nat>)
    ensures forall x :: x in frequency <==> x in numbers
    ensures forall x :: x in frequency ==> frequency[x] == multiset(numbers)[x]
  {
    frequency := map[];
    for i := 0 to |numbers|
      invariant forall x :: x in frequency <==> x in numbers[..i]
      invariant forall x :: x in frequency ==> frequency[x] == multiset(numbers[..i])[x]
    {
      var num := numbers[i];
      assert numbers[..i + 1] == numbers[..i] + [num];
      frequency := frequency[num := (if num in frequency then frequency[num] else 0) + 1];
    }
    assert numbers[..|numbers|] == numbers;
  }

  /** `frequency_map.values().max().unwrap_or(&0)`: the largest count, or 0
      for an empty map. */
  method MaxFrequency(frequency: map<i32, nat>) returns (maxFrequency: nat)
    ensures forall x :: x in frequency ==> frequency[x] <= maxFrequency
    ensures frequency != map[] ==> exists x :: x in frequency && frequency[x] == maxFrequency
    ensures frequency == map[] ==> maxFrequency == 0
  {
    maxFrequency := 0;
    var pending := frequency.Keys;
    var found := false;
    while pending != {}
      invariant pending <= frequency.Keys
      invariant forall x :: x in frequency && x !in pending ==> frequency[x] <= maxFrequency
      invariant found <==> pending != frequency.Keys
      invariant found ==> exists x :: x in frequency && frequency[x] == maxFrequency
      invariant !found ==> maxFrequency == 0
      decreases pending
    {
      var x :| x in pending;
      if !found || frequency[x] > maxFrequency {
        maxFrequency := frequency[x];
      }
      found := true;
      pending := pending - {x};
    }
    assert frequency != map[] ==> found by {
      if frequency != map[] {
        var x :| x in frequency;
        assert x in frequency.Keys;
      }
    }
  }

  /** The filter of `mode`: the keys whose count is `count`, each once. */
  method CollectWithCount(frequency: map<i32, nat>, count: nat) returns (collected: seq<i32>)
    ensures forall x :: x in collected <==> x in frequency && frequency[x] == count
    ensures NoDuplicates(collected)
  {
    collected := [];
    var pending := frequency.Keys;
    while pending != {}
      invariant pending <= frequency.Keys
      invariant forall x :: x in collected <==> x in frequency && x !in pending && frequency[x] == count
      invariant NoDuplicates(collected)
      decreases pending
    {
      var x :| x in pending;
      if frequency[x] == count {
        collected := collected + [x];
      }
      pending := pending - {x};
    }
  }

  /** A sorted arrangement of distinct values is strictly increasing. */
  lemma DistinctSortedIsStrictlyIncreasing(s: seq<i32>, t: seq<i32>)
    requires NoDuplicates(s)
    requires SortedBy(t, LeI32) && multiset(t) == multiset(s)
    ensures StrictlyIncreasing(t)
  {
    NoDuplicatesCountsAtMostOne(s);
    forall p, q | 0 <= p < q < |t| ensures t[p] < t[q] {
      assert LeI32(t[p], t[q]);
      if t[p] == t[q] {
        OccursTwice(t, p, q);
        assert false;
      }
    }
  }

  /** A strictly increasing list is determined by the values it holds, so
      the contract of `Mode` fixes its result completely. */
  lemma {:induction false} StrictlyIncreasingUnique(a: seq<i32>, b: seq<i32>)
    requires StrictlyIncreasing(a) && StrictlyIncreasing(b)
    requires forall x :: x in a <==> x in b
    ensures a == b
  {
    assert b != [] ==> b[0] in b;
    if a != [] {
      assert a[0] in b;
      assert b != [] && b[0] in a;
      var j :| 0 <= j < |b| && b[j] == a[0];
      var i :| 0 <= i < |a| && a[i] == b[0];
      assert a[0] <= a[i] && b[0] <= b[j];
      assert a[0] == b[0];
      forall x ensures x in a[1..] <==> x in b[1..] {
        if x in a[1..] {
          var i :| 1 <= i < |a| && a[i] == x;
          assert a[0] < x;
          assert x in b;
          var j :| 0 <= j < |b| && b[j] == x;
          assert j != 0;
          assert b[1..][j - 1] == x;
        }
        if x in b[1..] {
          var j :| 1 <= j < |b| && b[j] == x;
          assert b[0] < x;
          assert x in a;
          var i :| 0 <= i < |a| && a[i] == x;
          assert i != 0;
          assert a[1..][i - 1] == x;
        }
      }
      StrictlyIncreasingUnique(a[1..], b[1..]);
      HeadTail(a);
      HeadTail(b);
    }
  }

  /** The mode example of the unit tests with a single mode:
      [1, 2, 3, 3, 4] gives [3]. */
  method ModeSingleExample() returns (modes: seq<i32>)
    ensures modes == [3]
  {
    var numbers: seq<i32> := [1, 2, 3, 3, 4];
    modes := Mode(numbers);
    ghost var m := multiset(numbers);
    assert m[1] == 1 && m[2] == 1 && m[3] == 2 && m[4] == 1;
    ghost var want: seq<i32> := [3];
    forall x ensures x in modes <==> x in want {
      if x in numbers && x != 3 {
        assert !IsMode(numbers, x) by {
          assert 3 in numbers && m[3] > m[x];
        }
      }
    }
    StrictlyIncreasingUnique(modes, want);
  }

  /** The unit test with two modes: [1, 1, 2, 2, 3] gives [1, 2]; and the
      empty list gives no mode. */
  method ModeMultipleExample() returns (modes: seq<i32>, none: seq<i32>)
    ensures modes == [1, 2] && none == []
  {
    var numbers: seq<i32> := [1, 1, 2, 2, 3];
    modes := Mode(numbers);
    ghost var m := multiset(numbers);
    assert m[1] == 2 && m[2] == 2 && m[3] == 1;
    ghost var want: seq<i32> := [1, 2];
    forall x ensures x in modes <==> x in want {
      if x == 3 {
        assert !IsMode(numbers, x) by {
          assert 1 in numbers && m[1] > m[x];
        }
      }
    }
    StrictlyIncreasingUnique(modes, want);
    none := Mode([]);
    StrictlyIncreasingUnique(none, []);
  }

  /** `calculate_statistics(numbers)`: the median, which sorts the (moved)
      vector, then the modes of the sorted vector. Sorting only permutes,
      so the modes are those of the list as given. */
  method CalculateStatistics(numbers: seq<i32>) returns (median: real, modes: seq<i32>)
    ensures forall s :: Sorted(s) && multiset(s) == multiset(numbers) ==> median == Middle(s)
    ensures forall x :: x in modes <==> IsMode(numbers, x)
    ensures StrictlyIncreasing(modes)
    ensures |numbers| > 0 ==> |modes| > 0
  {
    var vector := new i32[|numbers|](k requires 0 <= k < |numbers| => numbers[k]);
    assert vector[..] == numbers;
    median := Median(vector);
    forall s | Sorted(s) && multiset(s) == multiset(numbers) ensures median == Middle(s) {
      MedianOfPermutation(vector[..], s);
    }
    modes := Mode(vector[..]);
    forall x ensures IsMode(vector[..], x) <==> IsMode(numbers, x) {
      assert x in vector[..] <==> x in multiset(vector[..]);
      assert x in numbers <==> x in multiset(numbers);
    }
    assert |vector[..]| == |numbers| by {
      assert |multiset(vector[..])| == |multiset(numbers)|;
    }
  }
}

/** Aggregation of the cards cast in a room: the median of a list of cards,
    the per-group tally of a room's votes and the count of local selections. */
module Voting {
  import opened Types
  import opened Constants
  import opened Text

  // ---------------------------------------------------------------------------
  // Median
  // ---------------------------------------------------------------------------

  /** The numbers on the numeric cards of `values`, in input order (the pass card is dropped). */
  function NumericValues(values: seq<FibonacciValue>): (ns: seq<nat>)
    ensures |ns| <= |values|
  {
    if values == [] then [] else NumberOn(values[0]) + NumericValues(values[1..])
  }

  /** The number printed on a card, as a list of zero (pass card) or one element. */
  function NumberOn(v: FibonacciValue): (ns: seq<nat>)
    ensures |ns| <= 1
  {
    match NumericValue(v)
    case None => []
    case Some(n) => [n]
  }

  predicate SortedAsc(s: seq<nat>)
  {
    forall i, j :: 0 <= i < j < |s| ==> s[i] <= s[j]
  }

  /** Inserts `x` before the first element not smaller than it. */
  function Insert(x: nat, s: seq<nat>): (r: seq<nat>)
    requires SortedAsc(s)
    ensures SortedAsc(r)
    ensures multiset(r) == multiset(s) + multiset{x}
  {
    if s == [] then [x]
    else if x <= s[0] then [x] + s
    else
      var tail := Insert(x, s[1..]);
      assert s == [s[0]] + s[1..];
      HeadBelowInsert(x, s, tail);
      [s[0]] + tail
  }

  lemma HeadBelowInsert(x: nat, s: seq<nat>, tail: seq<nat>)
    requires SortedAsc(s) && s != [] && s[0] < x
    requires multiset(tail) == multiset(s[1..]) + multiset{x}
    ensures forall k :: 0 <= k < |tail| ==> s[0] <= tail[k]
  {
    forall k | 0 <= k < |tail| ensures s[0] <= tail[k] {
      assert tail[k] in multiset(tail);
    }
  }

  /** Numeric ascending sort (insertion sort). */
  function SortAscending(s: seq<nat>): (r: seq<nat>)
    ensures SortedAsc(r)
    ensures multiset(r) == multiset(s)
    ensures |r| == |s|
  {
    if s == [] then []
    else
      assert s == [s[0]] + s[1..];
      Insert(s[0], SortAscending(s[1..]))
  }

  /** Twice the median of an ascending list, or None when it is empty.
      Working in halves keeps the even-count mean (which may end in .5) an integer. */
  function MedianOfSorted(sorted: seq<nat>): (h: Option<nat>)
    ensures h.None? <==> sorted == []
  {
    if |sorted| == 0 then None
    else
      var mid := |sorted| / 2;
      Some(if |sorted| % 2 == 0 then sorted[mid - 1] + sorted[mid] else 2 * sorted[mid])
  }

  /** Twice the median of the numeric cards of `values`. */
  function MedianHalves(values: seq<FibonacciValue>): (h: Option<nat>)
  {
    MedianOfSorted(SortAscending(NumericValues(values)))
  }

  /** How a number that is a whole or a half prints: "5" or "5.5". */
  function RenderHalves(h: nat): (s: string)
    ensures |s| >= 1 && IsDigit(s[0])
  {
    if h % 2 == 0 then NatToString(h / 2) else NatToString(h / 2) + ".5"
  }

  /** The printed median determines the median: different values in halves print
      differently. */
  lemma RenderHalvesInjective(a: nat, b: nat)
    requires RenderHalves(a) == RenderHalves(b)
    ensures a == b
  {
    HalfMark(a);
    HalfMark(b);
    var sa, sb := NatToString(a / 2), NatToString(b / 2);
    if a % 2 == 1 {
      assert (sa + ".5")[..|sa|] == sa && (sb + ".5")[..|sb|] == sb;
    }
    NatToStringInjective(a / 2, b / 2);
  }

  /** A printed median has '.' second from the end exactly when it is a half. */
  lemma HalfMark(h: nat)
    ensures var s := RenderHalves(h);
      (|s| >= 2 && s[|s| - 2] == '.') <==> h % 2 == 1
  {
    var digits := NatToString(h / 2);
    if h % 2 == 1 {
      assert RenderHalves(h) == digits + ".5";
    } else {
      assert RenderHalves(h) == digits;
      if |digits| >= 2 {
        assert IsDigit(digits[|digits| - 2]);
      }
    }
  }

  /** The result text: the pass card when there is no median. */
  function RenderMedian(h: Option<nat>): (s: string)
    ensures s == "☕" <==> h.None?
  {
    match h
    case None => "☕"
    case Some(x) =>
      var s := RenderHalves(x);
      assert s[0] != '☕';
      s
  }

  /** The median card value as the result screen shows it. */
  function CalculateMedian(values: seq<FibonacciValue>): (r: string)
    ensures r == "☕" || (|r| >= 1 && IsDigit(r[0]))
  {
    RenderMedian(MedianHalves(values))
  }

  lemma {:induction false} NumericValuesEmptyIffAllPass(values: seq<FibonacciValue>)
    ensures NumericValues(values) == [] <==> forall i :: 0 <= i < |values| ==> values[i] == Coffee
  {
    if values != [] {
      NumericValuesEmptyIffAllPass(values[1..]);
      assert forall i :: 1 <= i < |values| ==> values[i] == values[1..][i - 1];
    }
  }

  /** The result is the pass card exactly when no numeric card was cast,
      which includes the empty list. */
  lemma MedianIsPassIffNoNumericCard(values: seq<FibonacciValue>)
    ensures CalculateMedian(values) == "☕" <==> forall i :: 0 <= i < |values| ==> values[i] == Coffee
  {
    NumericValuesEmptyIffAllPass(values);
  }

  lemma {:induction false} NumericValuesAppend(a: seq<FibonacciValue>, b: seq<FibonacciValue>)
    ensures NumericValues(a + b) == NumericValues(a) + NumericValues(b)
  {
    if a != [] {
      assert (a + b)[0] == a[0];
      assert (a + b)[1..] == a[1..] + b;
      NumericValuesAppend(a[1..], b);
      calc {
        NumericValues(a + b);
        NumberOn(a[0]) + NumericValues(a[1..] + b);
        NumberOn(a[0]) + (NumericValues(a[1..]) + NumericValues(b));
        (NumberOn(a[0]) + NumericValues(a[1..])) + NumericValues(b);
      }
    } else {
      assert a + b == b;
    }
  }

  /** Adding a pass card anywhere leaves the median unchanged (and so does
      removing one, read right to left). */
  lemma PassCardDoesNotChangeMedian(values: seq<FibonacciValue>, i: nat)
    requires i <= |values|
    ensures CalculateMedian(values[..i] + [Coffee] + values[i..]) == CalculateMedian(values)
  {
    var before, after := values[..i], values[i..];
    var withPass := before + [Coffee] + after;
    assert NumericValues([Coffee]) == [] by {
      assert [Coffee][1..] == [];
    }
    assert NumericValues(before + [Coffee]) == NumericValues(before) by {
      NumericValuesAppend(before, [Coffee]);
    }
    assert NumericValues(withPass) == NumericValues(before) + NumericValues(after) by {
      NumericValuesAppend(before + [Coffee], after);
    }
    assert NumericValues(values) == NumericValues(before) + NumericValues(after) by {
      assert before + after == values;
      NumericValuesAppend(before, after);
    }
    assert MedianHalves(withPass) == MedianHalves(values);
  }

  /** Two sorted lists holding the same elements are the same list. */
  lemma {:induction false} SortedUnique(x: seq<nat>, y: seq<nat>)
    requires SortedAsc(x) && SortedAsc(y) && multiset(x) == multiset(y)
    ensures x == y
  {
    if x == [] {
      assert |y| == |multiset(y)| == 0;
    } else {
      HeadIsLeast(y, x[0]);
      HeadIsLeast(x, y[0]);
      assert x[0] == y[0];
      Behead(x);
      Behead(y);
      SortedUnique(x[1..], y[1..]);
      assert x == [x[0]] + x[1..] && y == [y[0]] + y[1..];
    }
  }

  /** The first element of a sorted list is at most any element of it. */
  lemma HeadIsLeast(s: seq<nat>, v: nat)
    requires SortedAsc(s) && v in multiset(s)
    ensures s != [] && s[0] <= v
  {
    var j :| 0 <= j < |s| && s[j] == v;
  }

  lemma Behead(s: seq<nat>)
    requires SortedAsc(s) && s != []
    ensures SortedAsc(s[1..])
    ensures multiset(s[1..]) == multiset(s) - multiset{s[0]}
  {
    assert s == [s[0]] + s[1..];
  }

  lemma {:induction false} NumericValuesRespectPermutation(a: seq<FibonacciValue>, b: seq<FibonacciValue>)
    requires multiset(a) == multiset(b)
    ensures multiset(NumericValues(a)) == multiset(NumericValues(b))
    decreases |a|
  {
    if a == [] {
      assert |b| == |multiset(b)| == 0;
    } else {
      var x := a[0];
      assert x in multiset(b);
      var j :| 0 <= j < |b| && b[j] == x;
      var rest := b[..j] + b[j + 1..];
      RemoveAt(b, j);
      TailAfterRemoving(a, b, j);
      NumericValuesRespectPermutation(a[1..], rest);
      NumbersOfHeadAndTail(a);
    }
  }

  lemma TailAfterRemoving(a: seq<FibonacciValue>, b: seq<FibonacciValue>, j: nat)
    requires a != [] && j < |b| && b[j] == a[0] && multiset(a) == multiset(b)
    requires multiset(b[..j] + b[j + 1..]) == multiset(b) - multiset{b[j]}
    ensures multiset(a[1..]) == multiset(b[..j] + b[j + 1..])
  {
    assert a == [a[0]] + a[1..];
  }

  lemma NumbersOfHeadAndTail(a: seq<FibonacciValue>)
    requires a != []
    ensures multiset(NumericValues(a)) == multiset(NumberOn(a[0])) + multiset(NumericValues(a[1..]))
  {
  }

  /** Taking the card at `j` out of `b` takes its number (if any) out of the numbers. */
  lemma RemoveAt(b: seq<FibonacciValue>, j: nat)
    requires j < |b|
    ensures multiset(b[..j] + b[j + 1..]) == multiset(b) - multiset{b[j]}
    ensures multiset(NumericValues(b)) == multiset(NumberOn(b[j])) + multiset(NumericValues(b[..j] + b[j + 1..]))
  {
    SplitAt(b, j);
    NumbersAround(b[..j], b[j], b[j + 1..]);
  }

  lemma SplitAt(b: seq<FibonacciValue>, j: nat)
    requires j < |b|
    ensures b == b[..j] + [b[j]] + b[j + 1..]
  {
    assert b[..j + 1] == b[..j] + [b[j]];
    assert b == b[..j + 1] + b[j + 1..];
  }

  lemma NumbersAround(before: seq<FibonacciValue>, x: FibonacciValue, after: seq<FibonacciValue>)
    ensures multiset(before + after) == multiset(before + [x] + after) - multiset{x}
    ensures multiset(NumericValues(before + [x] + after)) == multiset(NumberOn(x)) + multiset(NumericValues(before + after))
  {
    var nb, nx, na := NumericValues(before), NumberOn(x), NumericValues(after);
    assert NumericValues(before + [x] + after) == nb + nx + na by {
      NumericsOfSingle(x);
      NumericValuesAppend(before + [x], after);
      NumericValuesAppend(before, [x]);
    }
    assert NumericValues(before + after) == nb + na by {
      NumericValuesAppend(before, after);
    }
    assert multiset(nb + nx + na) == multiset(nx) + multiset(nb + na);
  }

  lemma NumericsOfSingle(x: FibonacciValue)
    ensures NumericValues([x]) == NumberOn(x)
  {
    assert [x][1..] == [];
  }

  /** The median depends only on which cards were cast, not on their order. */
  lemma MedianIgnoresOrder(a: seq<FibonacciValue>, b: seq<FibonacciValue>)
    requires multiset(a) == multiset(b)
    ensures CalculateMedian(a) == CalculateMedian(b)
  {
    NumericValuesRespectPermutation(a, b);
    SortedUnique(SortAscending(NumericValues(a)), SortAscending(NumericValues(b)));
    assert MedianHalves(a) == MedianHalves(b);
  }

  /** The median of the cards is the median of any ascending arrangement of their
      numbers. */
  lemma SortedMedian(values: seq<FibonacciValue>, sorted: seq<nat>)
    requires SortedAsc(sorted) && multiset(sorted) == multiset(NumericValues(values))
    ensures MedianHalves(values) == MedianOfSorted(sorted)
  {
    var s := SortAscending(NumericValues(values));
    SortedUnique(sorted, s);
  }

  /** With an odd number `2 * mid + 1` of numeric cards the result is the decimal
      text of the middle element of any ascending arrangement of their numbers. */
  lemma OddCountMedianIsMiddle(values: seq<FibonacciValue>, sorted: seq<nat>, mid: nat)
    requires SortedAsc(sorted) && multiset(sorted) == multiset(NumericValues(values))
    requires |sorted| == 2 * mid + 1
    ensures CalculateMedian(values) == NatToString(sorted[mid])
  {
    SortedMedian(values, sorted);
    MiddleOfOdd(sorted, mid);
    RenderWhole(values, sorted[mid]);
  }

  lemma MiddleOfOdd(sorted: seq<nat>, mid: nat)
    requires |sorted| == 2 * mid + 1
    ensures MedianOfSorted(sorted) == Some(2 * sorted[mid])
  {
    assert |sorted| % 2 == 1 && |sorted| / 2 == mid;
  }

  lemma RenderWhole(values: seq<FibonacciValue>, m: nat)
    requires MedianHalves(values) == Some(2 * m)
    ensures CalculateMedian(values) == NatToString(m)
  {
    var h := 2 * m;
    assert h % 2 == 0 && h / 2 == m;
    assert RenderMedian(Some(h)) == RenderHalves(h);
  }

  /** With an even, non-zero number `2 * mid` of numeric cards the result is the
      mean of the two middle numbers, printed as a whole or a half (`RenderHalves`
      of their sum: whole when the sum is even, otherwise ending in ".5"). */
  lemma EvenCountMedianIsMean(values: seq<FibonacciValue>, sorted: seq<nat>, mid: nat)
    requires SortedAsc(sorted) && multiset(sorted) == multiset(NumericValues(values))
    requires |sorted| == 2 * mid && mid > 0
    ensures CalculateMedian(values) == RenderHalves(sorted[mid - 1] + sorted[mid])
  {
    SortedMedian(values, sorted);
    MiddlesOfEven(sorted, mid);
    assert CalculateMedian(values) == RenderMedian(MedianOfSorted(sorted));
  }

  lemma MiddlesOfEven(sorted: seq<nat>, mid: nat)
    requires |sorted| == 2 * mid && mid > 0
    ensures RenderMedian(MedianOfSorted(sorted)) == RenderHalves(sorted[mid - 1] + sorted[mid])
  {
    assert |sorted| % 2 == 0 && |sorted| / 2 == mid;
  }

  function MinOf(s: seq<nat>): (m: nat)
    requires |s| > 0
    ensures m in s && forall i :: 0 <= i < |s| ==> m <= s[i]
  {
    if |s| == 1 then s[0]
    else
      var rest := MinOf(s[1..]);
      assert forall i :: 1 <= i < |s| ==> s[i] == s[1..][i - 1];
      if s[0] <= rest then s[0] else rest
  }

  function MaxOf(s: seq<nat>): (m: nat)
    requires |s| > 0
    ensures m in s && forall i :: 0 <= i < |s| ==> s[i] <= m
  {
    if |s| == 1 then s[0]
    else
      var rest := MaxOf(s[1..]);
      assert forall i :: 1 <= i < |s| ==> s[i] == s[1..][i - 1];
      if s[0] >= rest then s[0] else rest
  }

  /** The median lies between the smallest and the largest numeric card. */
  lemma MedianWithinRange(values: seq<FibonacciValue>)
    requires NumericValues(values) != []
    ensures MedianHalves(values).Some?
    ensures 2 * MinOf(NumericValues(values)) <= MedianHalves(values).value <= 2 * MaxOf(NumericValues(values))
  {
    var ns := NumericValues(values);
    var sorted := SortAscending(ns);
    var lo, hi := MinOf(ns), MaxOf(ns);
    forall i | 0 <= i < |sorted| ensures lo <= sorted[i] <= hi {
      assert sorted[i] in multiset(ns);
    }
    MedianOfSortedWithin(sorted, lo, hi);
  }

  lemma MedianOfSortedWithin(sorted: seq<nat>, lo: nat, hi: nat)
    requires sorted != []
    requires forall i :: 0 <= i < |sorted| ==> lo <= sorted[i] <= hi
    ensures MedianOfSorted(sorted).Some?
    ensures 2 * lo <= MedianOfSorted(sorted).value <= 2 * hi
  {
    var mid := |sorted| / 2;
    assert lo <= sorted[mid] <= hi;
    if |sorted| % 2 == 0 {
      assert lo <= sorted[mid - 1] <= hi;
    }
  }

  /** Worked example: a single card "5" gives "5". */
  lemma MedianOfSingleCard()
    ensures CalculateMedian([Five]) == "5"
  {
    assert NumericValues([Five]) == [5] by {
      assert [Five][1..] == [];
    }
    OddCountMedianIsMiddle([Five], [5], 0);
    assert NatToString(5) == "5";
  }

  /** Worked example: cards "3" and "8" give "5.5". */
  lemma MedianOfThreeAndEight()
    ensures CalculateMedian([Three, Eight]) == "5.5"
  {
    var nums: seq<nat> := [3, 8];
    ThreeAndEightNumbers();
    assert SortedAsc(nums);
    EvenCountMedianIsMean([Three, Eight], nums, 1);
    ElevenHalves();
  }

  lemma ThreeAndEightNumbers()
    ensures NumericValues([Three, Eight]) == [3, 8]
  {
    assert NumericValues([Eight]) == [8] by {
      assert [Eight][1..] == [];
    }
    assert [Three, Eight][1..] == [Eight];
  }

  lemma ElevenHalves()
    ensures RenderHalves(11) == "5.5"
  {
    assert 11 % 2 == 1 && 11 / 2 == 5;
    assert NatToString(5) == "5";
  }

  // ---------------------------------------------------------------------------
  // Tally per group
  // ---------------------------------------------------------------------------

  /** Number of votes in `votes` for group `g` with card `v`. */
  function Tally(votes: seq<Vote>, g: Group, v: FibonacciValue): (n: nat)
    ensures n <= |votes|
  {
    if votes == [] then 0
    else
      var last := votes[|votes| - 1];
      Tally(votes[..|votes| - 1], g, v) + (if last.group == g && last.value == v then 1 else 0)
  }

  type Results = map<Group, map<FibonacciValue, nat>>

  /** The card table of group `g`; a missing group reads as an empty table. */
  function Row(results: Results, g: Group): map<FibonacciValue, nat>
  {
    if g in results then results[g] else map[]
  }

  /** The count the results object holds for (g, v); a missing entry reads as zero. */
  function Count(results: Results, g: Group, v: FibonacciValue): nat
  {
    if g in results && v in results[g] then results[g][v] else 0
  }

  const AllGroups: seq<Group> := [G, F, B]

  /** Sum of f over every (group, card) pair drawn from gs and vs. */
  function GridSum(f: (Group, FibonacciValue) -> nat, gs: seq<Group>, vs: seq<FibonacciValue>): nat
  {
    if gs == [] then 0 else RowSum(f, gs[0], vs) + GridSum(f, gs[1..], vs)
  }

  function RowSum(f: (Group, FibonacciValue) -> nat, g: Group, vs: seq<FibonacciValue>): nat
  {
    if vs == [] then 0 else f(g, vs[0]) + RowSum(f, g, vs[1..])
  }

  /** Sum of all the counts a results object holds. */
  function SumResults(results: Results): nat
  {
    GridSum((g, v) => Count(results, g, v), AllGroups, FibonacciSequence)
  }

  /** `results` says, for every group and card, how many votes there are:
      a group is present exactly when it has a vote, a card of that group exactly
      when it has a vote, and then with its number of votes. */
  ghost predicate Counts(results: Results, votes: seq<Vote>)
  {
    CountsMatch(results, votes) && NoZeroEntries(results) && GroupsPresentIffVoted(results, votes)
  }

  ghost predicate CountsMatch(results: Results, votes: seq<Vote>)
  {
    forall g, v :: Count(results, g, v) == Tally(votes, g, v)
  }

  ghost predicate NoZeroEntries(results: Results)
  {
    forall g, v :: g in results && v in results[g] ==> results[g][v] > 0
  }

  ghost predicate GroupsPresentIffVoted(results: Results, votes: seq<Vote>)
  {
    forall g :: g in results <==> exists v :: Tally(votes, g, v) > 0
  }

  /** Builds the group -> card -> count table of a room's votes; no room yields no entries. */
  method GetResultsByGroup(room: Option<RoomState>) returns (results: Results)
    ensures room.None? ==> results == map[]
    ensures room.Some? ==> Counts(results, room.value.votes)
    ensures SumResults(results) == if room.Some? then |room.value.votes| else 0
  {
    results := map[];
    if room.None? {
      SumResultsIsVoteCount(results, []);
    } else {
      var votes := room.value.votes;
      var i := 0;
      while i < |votes|
        invariant 0 <= i <= |votes|
        invariant Counts(results, votes[..i])
      {
        var vote := votes[i];
        ghost var before := results;
        results := Increment(results, vote);
        assert votes[..i + 1] == votes[..i] + [vote];
        CountsStep(before, results, votes[..i], vote);
        i := i + 1;
      }
      assert votes[..i] == votes;
      SumResultsIsVoteCount(results, votes);
    }
  }

  /** Adds one to the count of the vote's group and card, first creating the
      group's table and the card's zero entry when they are missing. */
  method Increment(results: Results, vote: Vote) returns (after: Results)
    ensures after == results[vote.group := Row(results, vote.group)[vote.value := Count(results, vote.group, vote.value) + 1]]
  {
    after := results;
    if vote.group !in after {
      after := after[vote.group := map[]];
    }
    var inner := after[vote.group];
    if vote.value !in inner {
      inner := inner[vote.value := 0];
    }
    assert inner == Row(results, vote.group)[vote.value := Count(results, vote.group, vote.value)];
    assert inner[vote.value := inner[vote.value] + 1]
        == Row(results, vote.group)[vote.value := Count(results, vote.group, vote.value) + 1];
    after := after[vote.group := inner[vote.value := inner[vote.value] + 1]];
  }

  /** One more vote adds one to exactly that vote's (group, card) count. */
  lemma TallyAppend(votes: seq<Vote>, x: Vote)
    ensures forall g, v ::
      Tally(votes + [x], g, v) == Tally(votes, g, v) + (if x.group == g && x.value == v then 1 else 0)
  {
    assert (votes + [x])[..|votes|] == votes;
  }

  /** The loop step: incrementing the vote's entry (creating it and its group's
      table when missing) keeps the table in step with the votes seen. */
  lemma CountsStep(before: Results, after: Results, votes: seq<Vote>, x: Vote)
    requires Counts(before, votes)
    requires after == before[x.group := Row(before, x.group)[x.value := Count(before, x.group, x.value) + 1]]
    ensures Counts(after, votes + [x])
  {
    TallyAppend(votes, x);
    CountsMatchStep(before, after, votes, x);
    NoZeroEntriesStep(before, after, x);
    GroupsPresentStep(before, after, votes, x);
  }

  lemma CountsMatchStep(before: Results, after: Results, votes: seq<Vote>, x: Vote)
    requires CountsMatch(before, votes)
    requires forall g, v :: Tally(votes + [x], g, v) == Tally(votes, g, v) + (if x.group == g && x.value == v then 1 else 0)
    requires after == before[x.group := Row(before, x.group)[x.value := Count(before, x.group, x.value) + 1]]
    ensures CountsMatch(after, votes + [x])
  {
    forall g, v ensures Count(after, g, v) == Tally(votes + [x], g, v) {
      if g == x.group && v == x.value {
        assert Count(after, g, v) == Count(before, g, v) + 1;
      } else {
        assert Count(after, g, v) == Count(before, g, v);
      }
    }
  }

  lemma NoZeroEntriesStep(before: Results, after: Results, x: Vote)
    requires NoZeroEntries(before)
    requires after == before[x.group := Row(before, x.group)[x.value := Count(before, x.group, x.value) + 1]]
    ensures NoZeroEntries(after)
  {
  }

  lemma GroupsPresentStep(before: Results, after: Results, votes: seq<Vote>, x: Vote)
    requires GroupsPresentIffVoted(before, votes)
    requires forall g, v :: Tally(votes + [x], g, v) == Tally(votes, g, v) + (if x.group == g && x.value == v then 1 else 0)
    requires after == before[x.group := Row(before, x.group)[x.value := Count(before, x.group, x.value) + 1]]
    ensures GroupsPresentIffVoted(after, votes + [x])
  {
    var grown := votes + [x];
    forall g | g in after ensures exists v :: Tally(grown, g, v) > 0 {
      if g == x.group {
        assert Tally(grown, g, x.value) > 0;
      } else {
        var v :| Tally(votes, g, v) > 0;
        assert Tally(grown, g, v) > 0;
      }
    }
    forall g | exists v :: Tally(grown, g, v) > 0 ensures g in after {
      var v :| Tally(grown, g, v) > 0;
      if g != x.group {
        assert Tally(votes, g, v) > 0;
      }
    }
  }

  lemma {:induction false} RowSumPointwise(f1: (Group, FibonacciValue) -> nat, f2: (Group, FibonacciValue) -> nat,
                                           g: Group, vs: seq<FibonacciValue>)
    requires forall v :: f1(g, v) == f2(g, v)
    ensures RowSum(f1, g, vs) == RowSum(f2, g, vs)
  {
    if vs != [] {
      RowSumPointwise(f1, f2, g, vs[1..]);
    }
  }

  lemma {:induction false} GridSumPointwise(f1: (Group, FibonacciValue) -> nat, f2: (Group, FibonacciValue) -> nat,
                                            gs: seq<Group>, vs: seq<FibonacciValue>)
    requires forall g, v :: f1(g, v) == f2(g, v)
    ensures GridSum(f1, gs, vs) == GridSum(f2, gs, vs)
  {
    if gs != [] {
      RowSumPointwise(f1, f2, gs[0], vs);
      GridSumPointwise(f1, f2, gs[1..], vs);
    }
  }

  function TallyOf(votes: seq<Vote>): (Group, FibonacciValue) -> nat
  {
    (g, v) => Tally(votes, g, v)
  }

  lemma {:induction false} RowSumStep(votes: seq<Vote>, x: Vote, g: Group, vs: seq<FibonacciValue>)
    ensures RowSum(TallyOf(votes + [x]), g, vs)
         == RowSum(TallyOf(votes), g, vs) + (if x.group == g then multiset(vs)[x.value] else 0)
  {
    if vs != [] {
      assert (votes + [x])[..|votes + [x]| - 1] == votes;
      RowSumStep(votes, x, g, vs[1..]);
      assert vs == [vs[0]] + vs[1..];
    }
  }

  lemma {:induction false} GridSumStep(votes: seq<Vote>, x: Vote, gs: seq<Group>, vs: seq<FibonacciValue>)
    requires multiset(vs)[x.value] == 1
    ensures GridSum(TallyOf(votes + [x]), gs, vs) == GridSum(TallyOf(votes), gs, vs) + multiset(gs)[x.group]
  {
    if gs != [] {
      RowSumStep(votes, x, gs[0], vs);
      GridSumStep(votes, x, gs[1..], vs);
      assert gs == [gs[0]] + gs[1..];
      assert multiset(gs)[x.group] == (if gs[0] == x.group then 1 else 0) + multiset(gs[1..])[x.group];
    }
  }

  lemma {:induction false} GridSumZero(gs: seq<Group>, vs: seq<FibonacciValue>)
    ensures GridSum(TallyOf([]), gs, vs) == 0
  {
    if gs != [] {
      RowSumZero(gs[0], vs);
      GridSumZero(gs[1..], vs);
    }
  }

  lemma {:induction false} RowSumZero(g: Group, vs: seq<FibonacciValue>)
    ensures RowSum(TallyOf([]), g, vs) == 0
  {
    if vs != [] {
      RowSumZero(g, vs[1..]);
    }
  }

  /** Every vote is counted exactly once over all groups and cards. */
  lemma {:induction false} TalliesSumToVoteCount(votes: seq<Vote>)
    ensures GridSum(TallyOf(votes), AllGroups, FibonacciSequence) == |votes|
  {
    if votes == [] {
      GridSumZero(AllGroups, FibonacciSequence);
    } else {
      var init, x := votes[..|votes| - 1], votes[|votes| - 1];
      assert votes == init + [x];
      TalliesSumToVoteCount(init);
      ScaleListsEveryCardOnce(x.value);
      GroupListedOnce(x.group);
      GridSumStep(init, x, AllGroups, FibonacciSequence);
    }
  }

  lemma GroupListedOnce(g: Group)
    ensures multiset(AllGroups)[g] == 1
  {
  }

  lemma SumResultsIsVoteCount(results: Results, votes: seq<Vote>)
    requires Counts(results, votes)
    ensures SumResults(results) == |votes|
  {
    GridSumPointwise((g, v) => Count(results, g, v), TallyOf(votes), AllGroups, FibonacciSequence);
    TalliesSumToVoteCount(votes);
  }

  // ---------------------------------------------------------------------------
  // Local vote count
  // ---------------------------------------------------------------------------

  lemma GroupSetsAreSmall(gs: set<Group>)
    ensures |gs| <= |AllGroups|
  {
    assert gs <= {G, F, B} by {
      forall g | g in gs ensures g in {G, F, B} {
        match g case G => case F => case B =>
      }
    }
    SubsetCardinality(gs, {G, F, B});
  }

  lemma {:induction false} SubsetCardinality<T>(a: set<T>, b: set<T>)
    requires a <= b
    ensures |a| <= |b|
    decreases a
  {
    if a != {} {
      var x :| x in a;
      SubsetCardinality(a - {x}, b - {x});
    }
  }

  datatype VoteCount = VoteCount(current: nat, total: int)

  /** How many groups the user has selected a card for, out of the given total. */
  function GetVoteCount(userVotes: map<Group, FibonacciValue>, totalGroups: int): (r: VoteCount)
    ensures r.current == |userVotes.Keys| && r.total == totalGroups
    ensures r.current <= |AllGroups|
  {
    GroupSetsAreSmall(userVotes.Keys);
    VoteCount(|userVotes.Keys|, totalGroups)
  }
}

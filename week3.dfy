/**
 * Pregnancy-length statistics from the NSFG survey: the mean of a probability
 * mass function, the "first minus each later" differences within one
 * respondent's pregnancies, and their aggregation over all respondents.
 *
 * Pregnancy lengths are whole weeks, so they are `int`; PMF values,
 * probabilities and the mean are exact `real`s (no floating-point rounding).
 */
module Week3 {

  // ---------------------------------------------------------------------------
  // Mean of a probability mass function
  // ---------------------------------------------------------------------------

  /** One (value, probability) entry of a PMF's value-to-probability table. */
  datatype PmfItem = PmfItem(value: real, prob: real)

  /** What one entry adds to the mean. */
  function Term(e: PmfItem): real
  {
    e.prob * e.value
  }

  /** Sum of prob * value over the entries, accumulated from the front. */
  function WeightedSum(items: seq<PmfItem>): real
  {
    if items == [] then 0.0
    else WeightedSum(items[..|items| - 1]) + Term(items[|items| - 1])
  }

  /** Sum of the probabilities of the entries. */
  function TotalProb(items: seq<PmfItem>): real
  {
    if items == [] then 0.0
    else TotalProb(items[..|items| - 1]) + items[|items| - 1].prob
  }

  /** The mean of a PMF: starts at 0.0 and adds p * x for every entry. */
  method PmfMean(items: seq<PmfItem>) returns (mean: real)
    ensures mean == WeightedSum(items)
    ensures items == [] ==> mean == 0.0
  {
    mean := 0.0;
    var i := 0;
    while i < |items|
      invariant 0 <= i <= |items|
      invariant mean == WeightedSum(items[..i])
    {
      assert items[..i + 1][..i] == items[..i];
      mean := mean + items[i].prob * items[i].value;
      assert mean == WeightedSum(items[..i]) + Term(items[i]);
      i := i + 1;
    }
    assert items[..i] == items;
  }

  /** The weighted sum of a concatenation is the sum of the weighted sums. */
  lemma {:induction false} WeightedSumAppend(a: seq<PmfItem>, b: seq<PmfItem>)
    ensures WeightedSum(a + b) == WeightedSum(a) + WeightedSum(b)
    decreases |b|
  {
    if b == [] {
      assert a + b == a;
    } else {
      var n := |b| - 1;
      assert (a + b)[..|a + b| - 1] == a + b[..n];
      WeightedSumAppend(a, b[..n]);
    }
  }

  /**
   * The mean does not depend on the order in which the table's entries are
   * visited: any reordering of the entries gives the same sum.
   */
  lemma {:induction false} WeightedSumReorder(a: seq<PmfItem>, b: seq<PmfItem>)
    requires multiset(a) == multiset(b)
    ensures WeightedSum(a) == WeightedSum(b)
    decreases |a|
  {
    if a != [] {
      var n := |a| - 1;
      var e := a[n];
      assert a == a[..n] + [e];
      assert e in multiset(b);
      var k :| 0 <= k < |b| && b[k] == e;
      var rest := b[..k] + b[k + 1..];
      assert b == b[..k] + [e] + b[k + 1..];
      assert multiset(rest) == multiset(b) - multiset{e} by {
        assert multiset(b) == multiset(b[..k]) + multiset{e} + multiset(b[k + 1..]);
      }
      assert multiset(a[..n]) == multiset(a) - multiset{e};
      WeightedSumReorder(a[..n], rest);
      WeightedSumRemove(b, k);
    }
  }

  /** Taking one entry out of the table takes its term out of the sum. */
  lemma WeightedSumRemove(b: seq<PmfItem>, k: nat)
    requires k < |b|
    ensures WeightedSum(b) == WeightedSum(b[..k] + b[k + 1..]) + Term(b[k])
  {
    var e := b[k];
    assert b == (b[..k] + [e]) + b[k + 1..];
    WeightedSumAppend(b[..k] + [e], b[k + 1..]);
    WeightedSumAppend(b[..k], [e]);
    WeightedSumAppend(b[..k], b[k + 1..]);
    assert [e][..0] == [];
  }

  /** Every entry has a non-negative probability and a value in [lo, hi]. */
  predicate InRange(items: seq<PmfItem>, lo: real, hi: real)
  {
    forall i :: 0 <= i < |items| ==> items[i].prob >= 0.0 && lo <= items[i].value <= hi
  }

  /** With non-negative weights, the weighted sum lies between lo and hi times the total weight. */
  lemma {:induction false} WeightedSumBounds(items: seq<PmfItem>, lo: real, hi: real)
    requires InRange(items, lo, hi)
    ensures lo * TotalProb(items) <= WeightedSum(items) <= hi * TotalProb(items)
    decreases |items|
  {
    if items != [] {
      var n := |items| - 1;
      var e := items[n];
      assert InRange(items[..n], lo, hi);
      WeightedSumBounds(items[..n], lo, hi);
      TermBounds(e, lo, hi);
      var t := TotalProb(items[..n]);
      assert TotalProb(items) == t + e.prob;
      Distribute(lo, t, e.prob);
      Distribute(hi, t, e.prob);
    }
  }

  /** One entry's term lies between its probability times lo and times hi. */
  lemma TermBounds(e: PmfItem, lo: real, hi: real)
    requires e.prob >= 0.0 && lo <= e.value <= hi
    ensures e.prob * lo <= Term(e) <= e.prob * hi
  {
    assert e.prob * (e.value - lo) >= 0.0;
    assert e.prob * (hi - e.value) >= 0.0;
  }

  /** Multiplication distributes over addition (kept apart from the inductive proofs). */
  lemma Distribute(c: real, x: real, y: real)
    ensures c * (x + y) == c * x + c * y
  {
  }

  /** The mean of a normalised PMF lies between its smallest and largest value. */
  lemma MeanWithinRange(items: seq<PmfItem>, lo: real, hi: real)
    requires InRange(items, lo, hi)
    requires TotalProb(items) == 1.0
    ensures lo <= WeightedSum(items) <= hi
  {
    WeightedSumBounds(items, lo, hi);
  }

  // ---------------------------------------------------------------------------
  // Differences within one respondent's pregnancies
  // ---------------------------------------------------------------------------

  /** `[first - x for x in others]` */
  function SubtractEach(first: int, others: seq<int>): (r: seq<int>)
    ensures |r| == |others|
    ensures forall i :: 0 <= i < |r| ==> r[i] == first - others[i]
  {
    if others == [] then [] else [first - others[0]] + SubtractEach(first, others[1..])
  }

  /**
   * The first pregnancy length minus each later one, in order. The first
   * element is read unconditionally, so the sequence must not be empty.
   */
  function Difference(t: seq<int>): (r: seq<int>)
    requires |t| >= 1
    ensures |r| == |t| - 1
    ensures forall i :: 0 <= i < |r| ==> r[i] == t[0] - t[i + 1]
    ensures |t| == 1 ==> r == []
  {
    SubtractEach(t[0], t[1..])
  }

  /** First minus each later: [5, 3, 1] gives [2, 4]. */
  lemma DifferenceExample()
    ensures Difference([5, 3, 1]) == [2, 4]
    ensures Difference([38]) == []
  {
    assert [5, 3, 1][1..] == [3, 1];
  }

  /** Recovers the later lengths from the first one and the differences. */
  function Restore(first: int, d: seq<int>): seq<int>
  {
    if d == [] then [] else [first - d[0]] + Restore(first, d[1..])
  }

  /** Differences lose nothing: the first length and the differences give back the sequence. */
  lemma {:induction false} DifferenceRoundTrip(t: seq<int>)
    requires |t| >= 1
    ensures [t[0]] + Restore(t[0], Difference(t)) == t
  {
    RestoreSubtract(t[0], t[1..]);
    assert t == [t[0]] + t[1..];
  }

  /** Restore undoes SubtractEach for the same first value. */
  lemma {:induction false} RestoreSubtract(first: int, others: seq<int>)
    ensures Restore(first, SubtractEach(first, others)) == others
    decreases |others|
  {
    if others != [] {
      var d := SubtractEach(first, others);
      assert d[1..] == SubtractEach(first, others[1..]);
      RestoreSubtract(first, others[1..]);
      assert others == [others[0]] + others[1..];
    }
  }

  // ---------------------------------------------------------------------------
  // Aggregation over respondents
  // ---------------------------------------------------------------------------

  /** Pregnancies shorter than this many weeks are dropped before grouping. */
  const MinLength: int := 37

  /** The lengths of one group that survive the filter, in their original order. */
  function Keep(g: seq<int>): (r: seq<int>)
    ensures |r| <= |g|
    ensures forall k :: 0 <= k < |r| ==> r[k] >= MinLength
  {
    if g == [] then []
    else (if g[0] >= MinLength then [g[0]] else []) + Keep(g[1..])
  }

  /** A length survives exactly when it occurs in the group and is at least MinLength. */
  lemma {:induction false} KeepMembers(g: seq<int>, x: int)
    ensures x in Keep(g) <==> x in g && x >= MinLength
    decreases |g|
  {
    if g != [] {
      KeepMembers(g[1..], x);
      assert g == [g[0]] + g[1..];
    }
  }

  /** Filtering a concatenation filters each part and keeps them in order. */
  lemma {:induction false} KeepAppend(a: seq<int>, b: seq<int>)
    ensures Keep(a + b) == Keep(a) + Keep(b)
    decreases |a|
  {
    if a == [] {
      assert a + b == b;
    } else {
      assert (a + b)[1..] == a[1..] + b;
      KeepAppend(a[1..], b);
    }
  }

  /** One row of the pregnancy table: the respondent and the pregnancy length. */
  datatype Row = Row(caseid: int, prglngth: int)

  /** The rows of at least MinLength weeks, in table order. */
  function FilterTable(t: seq<Row>): seq<Row>
  {
    if t == [] then []
    else (if t[0].prglngth >= MinLength then [t[0]] else []) + FilterTable(t[1..])
  }

  /** The lengths of respondent `c`'s rows, in table order, wherever they stand in the table. */
  function GroupOf(t: seq<Row>, c: int): seq<int>
  {
    if t == [] then []
    else (if t[0].caseid == c then [t[0].prglngth] else []) + GroupOf(t[1..], c)
  }

  /**
   * Filtering the table and then taking a respondent's group gives that
   * group's lengths filtered, in the same order, even when respondents' rows
   * are interleaved.
   */
  lemma {:induction false} FilterThenGroup(t: seq<Row>, c: int)
    ensures GroupOf(FilterTable(t), c) == Keep(GroupOf(t, c))
    decreases |t|
  {
    if t != [] {
      var r := t[0];
      var head := if r.caseid == c then [r.prglngth] else [];
      FilterThenGroup(t[1..], c);
      KeepAppend(head, GroupOf(t[1..], c));
      var rest := FilterTable(t[1..]);
      assert GroupOf(t, c) == head + GroupOf(t[1..], c);
      if r.prglngth >= MinLength {
        var ft := [r] + rest;
        assert FilterTable(t) == ft;
        assert ft[0] == r && ft[1..] == rest;
        assert GroupOf(ft, c) == head + GroupOf(rest, c);
        assert Keep(head) == head;
      } else {
        assert FilterTable(t) == rest;
        assert Keep(head) == [];
      }
    }
  }

  /** The differences one group contributes: none unless two lengths survive. */
  function Contribution(g: seq<int>): seq<int>
  {
    var lengths := Keep(g);
    if |lengths| >= 2 then Difference(lengths) else []
  }

  /** The differences of all groups, concatenated in iteration order. */
  function AllDifferences(groups: seq<seq<int>>): seq<int>
  {
    if groups == [] then []
    else AllDifferences(groups[..|groups| - 1]) + Contribution(groups[|groups| - 1])
  }

  /** The number of (first, later) pairs over the groups with at least two surviving lengths. */
  function PairCount(groups: seq<seq<int>>): nat
  {
    if groups == [] then 0
    else
      var lengths := Keep(groups[|groups| - 1]);
      PairCount(groups[..|groups| - 1]) + (if |lengths| >= 2 then |lengths| - 1 else 0)
  }

  /**
   * The loop of PairWiseDifferences: keep the lengths of at least MinLength
   * weeks, and for every group with at least two of them extend `diffs` by
   * that group's differences.
   */
  method PairWiseDifferences(groups: seq<seq<int>>) returns (diffs: seq<int>)
    ensures diffs == AllDifferences(groups)
  {
    diffs := [];
    var i := 0;
    while i < |groups|
      invariant 0 <= i <= |groups|
      invariant diffs == AllDifferences(groups[..i])
    {
      assert groups[..i + 1][..i] == groups[..i];
      var lengths := Keep(groups[i]);
      if |lengths| >= 2 {
        diffs := diffs + Difference(lengths);
      }
      i := i + 1;
    }
    assert groups[..i] == groups;
  }

  /** One difference per (first, later) pair of every qualifying group. */
  lemma {:induction false} AllDifferencesLength(groups: seq<seq<int>>)
    ensures |AllDifferences(groups)| == PairCount(groups)
    decreases |groups|
  {
    if groups != [] {
      AllDifferencesLength(groups[..|groups| - 1]);
    }
  }

  /** Aggregating two runs of groups is aggregating each and concatenating, in order. */
  lemma {:induction false} AllDifferencesAppend(a: seq<seq<int>>, b: seq<seq<int>>)
    ensures AllDifferences(a + b) == AllDifferences(a) + AllDifferences(b)
    decreases |b|
  {
    if b == [] {
      assert a + b == a;
    } else {
      var n := |b| - 1;
      var g := b[n];
      var front := b[..n];
      calc {
        AllDifferences(a + b);
        { SplitLast(a, b); }
        AllDifferences((a + front) + [g]);
        { AllDifferencesSnoc(a + front, g); }
        AllDifferences(a + front) + Contribution(g);
        { AllDifferencesAppend(a, front); }
        (AllDifferences(a) + AllDifferences(front)) + Contribution(g);
        { ConcatAssoc(AllDifferences(a), AllDifferences(front), Contribution(g)); }
        AllDifferences(a) + (AllDifferences(front) + Contribution(g));
        { AllDifferencesSnoc(front, g); SplitLast([], b); }
        AllDifferences(a) + AllDifferences(b);
      }
    }
  }

  /** Splitting off the last element of the right operand of a concatenation. */
  lemma SplitLast<T>(a: seq<T>, b: seq<T>)
    requires b != []
    ensures a + b == (a + b[..|b| - 1]) + [b[|b| - 1]]
  {
  }

  /** Concatenation is associative. */
  lemma ConcatAssoc<T>(x: seq<T>, y: seq<T>, z: seq<T>)
    ensures (x + y) + z == x + (y + z)
  {
  }

  /** Adding one group at the end appends its contribution. */
  lemma AllDifferencesSnoc(gs: seq<seq<int>>, g: seq<int>)
    ensures AllDifferences(gs + [g]) == AllDifferences(gs) + Contribution(g)
  {
    assert (gs + [g])[..|gs|] == gs;
  }

  /** A group with fewer than two surviving lengths, wherever it stands, adds nothing. */
  lemma ShortGroupContributesNothing(a: seq<seq<int>>, g: seq<int>, b: seq<seq<int>>)
    requires |Keep(g)| < 2
    ensures AllDifferences(a + [g] + b) == AllDifferences(a + b)
  {
    calc {
      AllDifferences(a + [g] + b);
      { AllDifferencesAppend(a + [g], b); }
      AllDifferences(a + [g]) + AllDifferences(b);
      { AllDifferencesSnoc(a, g); }
      AllDifferences(a) + Contribution(g) + AllDifferences(b);
      { assert Contribution(g) == []; }
      AllDifferences(a) + AllDifferences(b);
      { AllDifferencesAppend(a, b); }
      AllDifferences(a + b);
    }
  }

  /**
   * `d` is the first surviving length of group `g` minus its `j`-th surviving
   * length, both at least MinLength weeks.
   */
  predicate PairDifference(g: seq<int>, j: int, d: int)
  {
    var lengths := Keep(g);
    1 <= j < |lengths| && lengths[0] >= MinLength && lengths[j] >= MinLength
    && d == lengths[0] - lengths[j]
  }

  /** Every aggregated difference comes from a (first, later) pair of surviving lengths of one group. */
  lemma {:induction false} DifferenceProvenance(groups: seq<seq<int>>, k: nat)
    requires k < |AllDifferences(groups)|
    ensures exists i, j :: 0 <= i < |groups| && PairDifference(groups[i], j, AllDifferences(groups)[k])
    decreases |groups|
  {
    var n := |groups| - 1;
    var front := groups[..n];
    var last := Contribution(groups[n]);
    var d := AllDifferences(groups)[k];
    assert AllDifferences(groups) == AllDifferences(front) + last;
    if k < |AllDifferences(front)| {
      DifferenceProvenance(front, k);
      assert d == AllDifferences(front)[k];
      var i, j :| 0 <= i < |front| && PairDifference(front[i], j, d);
      assert front[i] == groups[i];
      assert PairDifference(groups[i], j, d);
    } else {
      var j := k - |AllDifferences(front)| + 1;
      assert d == last[j - 1];
      assert PairDifference(groups[n], j, d);
    }
  }

  /** Respondent 1 with lengths [39, 40] and respondent 2 with [38]: only the first qualifies. */
  lemma TwoRespondentsExample()
    ensures AllDifferences([[39, 40], [38]]) == [-1]
  {
    assert Keep([38]) == [38];
    assert Keep([40]) == [40];
    assert Keep([39, 40]) == [39, 40];
    assert [[39, 40], [38]][..1] == [[39, 40]];
    assert [[39, 40]][..0] == [];
  }

  // ---------------------------------------------------------------------------
  // The aggregation as the source spells it
  // ---------------------------------------------------------------------------

  /** What the aggregation loop yields: the differences, or the name lookup that failed. */
  datatype Outcome = Done(diffs: seq<int>) | NameError(name: string)

  /**
   * The loop as written calls `Diffs`, which no module in scope defines, so the
   * first group with two surviving lengths raises a NameError.
   */
  function AsWrittenPairWiseDifferences(groups: seq<seq<int>>): (r: Outcome)
    ensures r.NameError? <==> exists i :: 0 <= i < |groups| && |Keep(groups[i])| >= 2
    ensures r.Done? ==> r.diffs == []
  {
    if groups == [] then Done([])
    else if |Keep(groups[0])| >= 2 then NameError("Diffs")
    else
      var r := AsWrittenPairWiseDifferences(groups[1..]);
      assert forall i :: 1 <= i < |groups| ==> groups[i] == groups[1..][i - 1];
      r
  }

  /** Some group qualifies exactly when there is at least one pair to difference. */
  lemma {:induction false} QualifyingGroupIffPairs(groups: seq<seq<int>>)
    ensures PairCount(groups) > 0 <==> exists i :: 0 <= i < |groups| && |Keep(groups[i])| >= 2
    decreases |groups|
  {
    if groups != [] {
      var n := |groups| - 1;
      var front := groups[..n];
      QualifyingGroupIffPairs(front);
      assert forall i :: 0 <= i < n ==> front[i] == groups[i];
      if PairCount(front) > 0 {
        var i :| 0 <= i < n && |Keep(front[i])| >= 2;
        assert |Keep(groups[i])| >= 2;
      }
    }
  }

  /** Some group qualifies exactly when the intended aggregation is non-empty. */
  lemma QualifyingGroupIffDifferences(groups: seq<seq<int>>)
    ensures AllDifferences(groups) != [] <==> exists i :: 0 <= i < |groups| && |Keep(groups[i])| >= 2
  {
    QualifyingGroupIffPairs(groups);
    AllDifferencesLength(groups);
  }

  /**
   * The loop as written fails on exactly the inputs where the intended loop
   * produces any difference; otherwise both yield the empty list.
   */
  lemma AsWrittenFailsWheneverIntendedProducesDifferences(groups: seq<seq<int>>)
    ensures AsWrittenPairWiseDifferences(groups)
      == if AllDifferences(groups) == [] then Done([]) else NameError("Diffs")
  {
    QualifyingGroupIffDifferences(groups);
    if AsWrittenPairWiseDifferences(groups).NameError? {
      NameIsDiffs(groups);
    }
  }

  /** The failing lookup is always the one for `Diffs`. */
  lemma {:induction false} NameIsDiffs(groups: seq<seq<int>>)
    requires AsWrittenPairWiseDifferences(groups).NameError?
    ensures AsWrittenPairWiseDifferences(groups).name == "Diffs"
    decreases |groups|
  {
    if |Keep(groups[0])| < 2 {
      NameIsDiffs(groups[1..]);
    }
  }

  /** On the two-respondent table the loop as written fails, where [-1] is intended. */
  lemma AsWrittenCounterexample()
    ensures AsWrittenPairWiseDifferences([[39, 40], [38]]) == NameError("Diffs")
    ensures AllDifferences([[39, 40], [38]]) == [-1]
  {
    assert Keep([40]) == [40];
    assert Keep([39, 40]) == [39, 40];
    TwoRespondentsExample();
  }
}

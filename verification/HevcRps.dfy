/**
 Short-term reference picture sets (mft/parser_glue_h265.cpp, `parse_st_rps`; sections 7.3.7 and 7.4.8 of
 ITU-T H.265): what inter prediction selects, and that every parsed set is in canonical form.
 */
module HevcRps {
  import opened Bits

  const MAX_REFS: nat := 16

  /** Negative deltas first, nearest first, then positive ones, nearest first. */
  datatype Rps = Rps(numNegative: nat, numPositive: nat, delta: seq<int>, used: seq<bool>)

  predicate Shaped(r: Rps) {
    |r.delta| == |r.used| == r.numNegative + r.numPositive <= MAX_REFS
  }

  predicate AllShaped(table: seq<Rps>) {
    forall k | 0 <= k < |table| :: Shaped(table[k])
  }

  /** Strictly decreasing below zero, then strictly increasing above zero. */
  predicate Canonical(r: Rps) {
    && Shaped(r)
    && (forall i | 0 <= i < r.numNegative :: r.delta[i] < 0)
    && (forall i | r.numNegative <= i < |r.delta| :: r.delta[i] > 0)
    && (forall i, j | 0 <= i < j < r.numNegative :: r.delta[i] > r.delta[j])
    && (forall i, j | r.numNegative <= i < j < |r.delta| :: r.delta[i] < r.delta[j])
  }

  // ---------------------------------------------------------------- inter prediction

  /** Candidate `i` of a prediction: reference entry `i` moved by `deltaRps`, the pivot at the end. */
  function Candidate(ref: Rps, deltaRps: int, i: nat): int
    requires Shaped(ref) && i <= |ref.delta|
  {
    deltaRps + if i < |ref.delta| then ref.delta[i] else 0
  }

  predicate Chosen(ref: Rps, deltaRps: int, use: seq<bool>, negative: bool, i: nat)
    requires Shaped(ref) && |use| == |ref.delta| + 1 && i < |use|
  {
    use[i] && if negative then Candidate(ref, deltaRps, i) < 0 else Candidate(ref, deltaRps, i) > 0
  }

  /** The order in which candidates are visited for the negative half: from the largest delta down. */
  function FallingOrder(ref: Rps, k: nat): (i: nat)
    requires Shaped(ref) && k <= |ref.delta|
    ensures i <= |ref.delta|
  {
    if k < ref.numPositive then |ref.delta| - 1 - k
    else if k == ref.numPositive then |ref.delta|
    else k - ref.numPositive - 1
  }

  /** Visiting order of either half: the positive half goes from the smallest delta up. */
  function Visit(ref: Rps, negative: bool, k: nat): (i: nat)
    requires Shaped(ref) && k <= |ref.delta|
    ensures i <= |ref.delta|
  {
    FallingOrder(ref, if negative then k else |ref.delta| - k)
  }

  predicate ChosenAt(ref: Rps, deltaRps: int, use: seq<bool>, negative: bool, visit: nat)
    requires Shaped(ref) && |use| == |ref.delta| + 1 && visit < |use|
  {
    Chosen(ref, deltaRps, use, negative, Visit(ref, negative, visit))
  }

  /** When, among the first `n` visits, a candidate of the half is chosen. */
  function Picks(ref: Rps, deltaRps: int, use: seq<bool>, negative: bool, n: nat): (r: seq<nat>)
    requires Shaped(ref) && |use| == |ref.delta| + 1 && n <= |use|
    ensures |r| <= n && forall k | 0 <= k < |r| :: r[k] < n
  {
    if n == 0 then []
    else if ChosenAt(ref, deltaRps, use, negative, n - 1) then
      Picks(ref, deltaRps, use, negative, n - 1) + [n - 1]
    else
      Picks(ref, deltaRps, use, negative, n - 1)
  }

  /** The candidates of one half in the order they are written. */
  function Half(ref: Rps, deltaRps: int, use: seq<bool>, negative: bool): (r: seq<nat>)
    requires Shaped(ref) && |use| == |ref.delta| + 1
    ensures forall k | 0 <= k < |r| :: r[k] < |use|
  {
    var p := Picks(ref, deltaRps, use, negative, |use|);
    seq(|p|, k requires 0 <= k < |p| => Visit(ref, negative, p[k]))
  }

  function AllPicks(ref: Rps, deltaRps: int, use: seq<bool>): (r: seq<nat>)
    requires Shaped(ref) && |use| == |ref.delta| + 1
    ensures forall k | 0 <= k < |r| :: r[k] < |use|
  {
    Half(ref, deltaRps, use, true) + Half(ref, deltaRps, use, false)
  }

  /** The predicted set with deltas of any width. */
  function Predicted(ref: Rps, deltaRps: int, used: seq<bool>, use: seq<bool>): (r: Rps)
    requires Shaped(ref) && |used| == |use| == |ref.delta| + 1
  {
    var picks := AllPicks(ref, deltaRps, use);
    Rps(|Half(ref, deltaRps, use, true)|, |Half(ref, deltaRps, use, false)|,
        seq(|picks|, k requires 0 <= k < |picks| => Candidate(ref, deltaRps, picks[k])),
        seq(|picks|, k requires 0 <= k < |picks| => used[picks[k]]))
  }

  /** Candidates are visited from the largest delta to the smallest. */
  lemma FallingOrderFalls(ref: Rps, deltaRps: int, j: nat, k: nat)
    requires Canonical(ref) && j < k <= |ref.delta|
    ensures Candidate(ref, deltaRps, FallingOrder(ref, j)) > Candidate(ref, deltaRps, FallingOrder(ref, k))
  {}

  lemma FallingOrderCovers(ref: Rps, i: nat) returns (k: nat)
    requires Shaped(ref) && i <= |ref.delta|
    ensures k <= |ref.delta| && FallingOrder(ref, k) == i
  {
    k := if i == |ref.delta| then ref.numPositive
         else if i < ref.numNegative then i + ref.numPositive + 1
         else |ref.delta| - 1 - i;
  }

  /** How far a candidate lies from zero, on the side of its half. */
  function Distance(ref: Rps, deltaRps: int, negative: bool, i: nat): int
    requires Shaped(ref) && i <= |ref.delta|
  {
    if negative then -Candidate(ref, deltaRps, i) else Candidate(ref, deltaRps, i)
  }

  lemma {:induction false} PicksMembers(ref: Rps, deltaRps: int, use: seq<bool>, negative: bool, n: nat, v: nat)
    requires Shaped(ref) && |use| == |ref.delta| + 1 && v < n <= |use|
    ensures v in Picks(ref, deltaRps, use, negative, n) <==> ChosenAt(ref, deltaRps, use, negative, v)
  {
    hide ChosenAt, Shaped;
    if v < n - 1 {
      PicksMembers(ref, deltaRps, use, negative, n - 1, v);
    } else {
      assert v !in Picks(ref, deltaRps, use, negative, n - 1);
    }
  }

  lemma {:induction false} PicksAscend(ref: Rps, deltaRps: int, use: seq<bool>, negative: bool, n: nat, j: nat, k: nat)
    requires Shaped(ref) && |use| == |ref.delta| + 1 && n <= |use|
    requires j < k < |Picks(ref, deltaRps, use, negative, n)|
    ensures Picks(ref, deltaRps, use, negative, n)[j] < Picks(ref, deltaRps, use, negative, n)[k]
  {
    hide ChosenAt, Shaped;
    if k < |Picks(ref, deltaRps, use, negative, n - 1)| { PicksAscend(ref, deltaRps, use, negative, n - 1, j, k); }
  }

  /** One half holds exactly its chosen candidates. */
  lemma HalfMembers(ref: Rps, deltaRps: int, use: seq<bool>, negative: bool)
    requires Shaped(ref) && |use| == |ref.delta| + 1
    ensures var h := Half(ref, deltaRps, use, negative);
            && (forall k | 0 <= k < |h| :: Chosen(ref, deltaRps, use, negative, h[k]))
            && (forall i: nat | i < |use| && Chosen(ref, deltaRps, use, negative, i) :: i in h)
  {
    var h, p := Half(ref, deltaRps, use, negative), Picks(ref, deltaRps, use, negative, |use|);
    forall k | 0 <= k < |h| ensures Chosen(ref, deltaRps, use, negative, h[k]) {
      assert p[k] in p;
      PicksMembers(ref, deltaRps, use, negative, |use|, p[k]);
    }
    forall i: nat | i < |use| && Chosen(ref, deltaRps, use, negative, i) ensures i in h {
      var f := FallingOrderCovers(ref, i);
      var v := if negative then f else |ref.delta| - f;
      assert ChosenAt(ref, deltaRps, use, negative, v);
      PicksMembers(ref, deltaRps, use, negative, |use|, v);
      var k :| 0 <= k < |p| && p[k] == v;
      assert h[k] == i;
    }
  }

  lemma VisitsMoveAway(ref: Rps, deltaRps: int, negative: bool, u: nat, v: nat)
    requires Canonical(ref) && u < v <= |ref.delta|
    ensures Distance(ref, deltaRps, negative, Visit(ref, negative, u))
          < Distance(ref, deltaRps, negative, Visit(ref, negative, v))
  {
    if negative {
      FallingOrderFalls(ref, deltaRps, u, v);
    } else {
      FallingOrderFalls(ref, deltaRps, |ref.delta| - v, |ref.delta| - u);
    }
  }

  /** One half lists its candidates nearest to zero first. */
  lemma HalfInOrder(ref: Rps, deltaRps: int, use: seq<bool>, negative: bool)
    requires Canonical(ref) && |use| == |ref.delta| + 1
    ensures var h := Half(ref, deltaRps, use, negative);
            forall j, k | 0 <= j < k < |h| ::
              Distance(ref, deltaRps, negative, h[j]) < Distance(ref, deltaRps, negative, h[k])
  {
    var h, p := Half(ref, deltaRps, use, negative), Picks(ref, deltaRps, use, negative, |use|);
    forall j, k | 0 <= j < k < |h|
      ensures Distance(ref, deltaRps, negative, h[j]) < Distance(ref, deltaRps, negative, h[k])
    {
      PicksAscend(ref, deltaRps, use, negative, |use|, j, k);
      VisitsMoveAway(ref, deltaRps, negative, p[j], p[k]);
    }
  }

  /** Entry `(d, u)` belongs to the prediction: a selected member of the reference set or zero, moved. */
  predicate Selects(ref: Rps, deltaRps: int, used: seq<bool>, use: seq<bool>, d: int, u: bool)
    requires Shaped(ref) && |used| == |use| == |ref.delta| + 1
  {
    d != 0 && exists i: nat | i < |use| :: use[i] && Candidate(ref, deltaRps, i) == d && used[i] == u
  }

  /**
   Inter prediction keeps canonical form and is exact: the predicted set holds a delta with a used flag
   if and only if some selected member of the reference set or zero, moved by deltaRps, is that nonzero
   delta with that flag.
   */
  lemma PredictionIsCanonicalAndExact(ref: Rps, deltaRps: int, used: seq<bool>, use: seq<bool>)
    requires Canonical(ref) && |used| == |use| == |ref.delta| + 1
    requires var r := Predicted(ref, deltaRps, used, use); |r.delta| <= MAX_REFS
    ensures var r := Predicted(ref, deltaRps, used, use);
            && Canonical(r)
            && (forall d, u :: (exists k :: 0 <= k < |r.delta| && r.delta[k] == d && r.used[k] == u)
                               <==> Selects(ref, deltaRps, used, use, d, u))
  {
    hide Predicted, Selects;
    PredictionIsCanonical(ref, deltaRps, used, use);
    PredictionIsExact(ref, deltaRps, used, use);
  }

  lemma PredictionIsExact(ref: Rps, deltaRps: int, used: seq<bool>, use: seq<bool>)
    requires Shaped(ref) && |used| == |use| == |ref.delta| + 1
    ensures var r := Predicted(ref, deltaRps, used, use);
            && |r.used| == |r.delta|
            && forall d, u :: (exists k :: 0 <= k < |r.delta| && r.delta[k] == d && r.used[k] == u)
                              <==> Selects(ref, deltaRps, used, use, d, u)
  {
    hide Predicted, Selects;
    var r := Predicted(ref, deltaRps, used, use);
    PredictionLengths(ref, deltaRps, used, use);
    forall d, u | Selects(ref, deltaRps, used, use, d, u)
      ensures exists k :: 0 <= k < |r.delta| && r.delta[k] == d && r.used[k] == u
    {
      var k := SelectedIsThere(ref, deltaRps, used, use, d, u);
    }
    forall k: nat | k < |r.delta| ensures Selects(ref, deltaRps, used, use, r.delta[k], r.used[k]) {
      EntryIsSelected(ref, deltaRps, used, use, k);
    }
  }

  lemma PredictionLengths(ref: Rps, deltaRps: int, used: seq<bool>, use: seq<bool>)
    requires Shaped(ref) && |used| == |use| == |ref.delta| + 1
    ensures var r := Predicted(ref, deltaRps, used, use); |r.used| == |r.delta|
  {
    hide Half;
  }

  lemma SelectedIsThere(ref: Rps, deltaRps: int, used: seq<bool>, use: seq<bool>, d: int, u: bool) returns (k: nat)
    requires Shaped(ref) && |used| == |use| == |ref.delta| + 1 && Selects(ref, deltaRps, used, use, d, u)
    ensures var r := Predicted(ref, deltaRps, used, use);
            k < |r.delta| == |r.used| && r.delta[k] == d && r.used[k] == u
  {
    hide Half, Candidate;
    var i: nat :| i < |use| && use[i] && Candidate(ref, deltaRps, i) == d && used[i] == u;
    HalfMembers(ref, deltaRps, use, d < 0);
    assert Chosen(ref, deltaRps, use, d < 0, i);
    assert i in Half(ref, deltaRps, use, d < 0);
    var picks := AllPicks(ref, deltaRps, use);
    assert i in picks;
    k :| k < |picks| && picks[k] == i;
  }

  lemma EntryIsSelected(ref: Rps, deltaRps: int, used: seq<bool>, use: seq<bool>, k: nat)
    requires Shaped(ref) && |used| == |use| == |ref.delta| + 1 && k < |Predicted(ref, deltaRps, used, use).delta|
    ensures var r := Predicted(ref, deltaRps, used, use);
            |r.used| == |r.delta| && Selects(ref, deltaRps, used, use, r.delta[k], r.used[k])
  {
    hide Half, Candidate;
    var r, picks := Predicted(ref, deltaRps, used, use), AllPicks(ref, deltaRps, use);
    HalfMembers(ref, deltaRps, use, k < r.numNegative);
    assert picks[k] in Half(ref, deltaRps, use, k < r.numNegative);
    assert Chosen(ref, deltaRps, use, k < r.numNegative, picks[k]);
  }

  lemma PredictionIsCanonical(ref: Rps, deltaRps: int, used: seq<bool>, use: seq<bool>)
    requires Canonical(ref) && |used| == |use| == |ref.delta| + 1
    requires var r := Predicted(ref, deltaRps, used, use); |r.delta| <= MAX_REFS
    ensures Canonical(Predicted(ref, deltaRps, used, use))
  {
    var r := Predicted(ref, deltaRps, used, use);
    HalfMembers(ref, deltaRps, use, true);
    HalfMembers(ref, deltaRps, use, false);
    forall k | 0 <= k < |r.delta| ensures r.delta[k] < 0 <==> k < r.numNegative
    ensures r.delta[k] != 0 {
      assert Chosen(ref, deltaRps, use, k < r.numNegative, AllPicks(ref, deltaRps, use)[k]);
    }
    PredictedInOrder(ref, deltaRps, used, use, true);
    PredictedInOrder(ref, deltaRps, used, use, false);
  }

  lemma PredictedInOrder(ref: Rps, deltaRps: int, used: seq<bool>, use: seq<bool>, negative: bool)
    requires Canonical(ref) && |used| == |use| == |ref.delta| + 1
    ensures var r := Predicted(ref, deltaRps, used, use);
            && (negative ==> forall i, j | 0 <= i < j < r.numNegative :: r.delta[i] > r.delta[j])
            && (!negative ==> forall i, j | r.numNegative <= i < j < |r.delta| :: r.delta[i] < r.delta[j])
  {
    hide Half, Candidate;
    HalfInOrder(ref, deltaRps, use, negative);
    var r, h := Predicted(ref, deltaRps, used, use), Half(ref, deltaRps, use, negative);
    var at := if negative then 0 else r.numNegative;
    forall i, j | at <= i < j < at + |h|
      ensures if negative then r.delta[i] > r.delta[j] else r.delta[i] < r.delta[j]
    {
      assert Distance(ref, deltaRps, negative, h[i - at]) < Distance(ref, deltaRps, negative, h[j - at]);
      PredictedEntry(ref, deltaRps, used, use, negative, i - at);
      PredictedEntry(ref, deltaRps, used, use, negative, j - at);
    }
  }

  lemma PredictedEntry(ref: Rps, deltaRps: int, used: seq<bool>, use: seq<bool>, negative: bool, k: nat)
    requires Shaped(ref) && |used| == |use| == |ref.delta| + 1 && k < |Half(ref, deltaRps, use, negative)|
    ensures var r, h := Predicted(ref, deltaRps, used, use), Half(ref, deltaRps, use, negative);
            var at := if negative then 0 else r.numNegative;
            at + k < |r.delta| && r.delta[at + k] == Candidate(ref, deltaRps, h[k])
  {
    hide Half, Candidate;
  }

  // ---------------------------------------------------------------- the scratch arrays

  function Members(s: seq<nat>): set<nat> {
    set i | i in s
  }

  lemma {:induction false} DistinctSize(s: seq<nat>)
    requires forall j, k | 0 <= j < k < |s| :: s[j] != s[k]
    ensures |Members(s)| == |s|
  {
    if s != [] {
      var init, last := s[..|s| - 1], s[|s| - 1];
      DistinctSize(init);
      assert s == init + [last];
      assert Members(s) == Members(init) + {last};
    }
  }

  /** The numbers below `n`. */
  function Below(n: nat): (r: set<nat>)
    ensures |r| == n && forall i: nat :: i in r <==> i < n
  {
    if n == 0 then {} else
    var last: nat := n - 1;
    Below(last) + {last}
  }

  /** The two halves together never hold more than the 17 candidates, so the scratch arrays suffice. */
  lemma HalvesFit(ref: Rps, deltaRps: int, use: seq<bool>)
    requires Shaped(ref) && |use| == |ref.delta| + 1
    ensures |Half(ref, deltaRps, use, true)| + |Half(ref, deltaRps, use, false)| <= |use| <= MAX_REFS + 1
  {
    var n, p := Half(ref, deltaRps, use, true), Half(ref, deltaRps, use, false);
    HalvesDisjoint(ref, deltaRps, use);
    HalfDistinct(ref, deltaRps, use, true);
    HalfDistinct(ref, deltaRps, use, false);
    DistinctSize(n);
    DistinctSize(p);
    SubsetSize(Members(n) + Members(p), Below(|use|));
  }

  lemma HalvesDisjoint(ref: Rps, deltaRps: int, use: seq<bool>)
    requires Shaped(ref) && |use| == |ref.delta| + 1
    ensures Members(Half(ref, deltaRps, use, true)) !! Members(Half(ref, deltaRps, use, false))
  {
    HalfMembers(ref, deltaRps, use, true);
    HalfMembers(ref, deltaRps, use, false);
    var n, p := Half(ref, deltaRps, use, true), Half(ref, deltaRps, use, false);
    forall i | i in Members(n) ensures i !in Members(p) {
      var k :| 0 <= k < |n| && n[k] == i;
      assert Chosen(ref, deltaRps, use, true, n[k]);
    }
  }

  lemma HalfDistinct(ref: Rps, deltaRps: int, use: seq<bool>, negative: bool)
    requires Shaped(ref) && |use| == |ref.delta| + 1
    ensures var h := Half(ref, deltaRps, use, negative); forall j, k | 0 <= j < k < |h| :: h[j] != h[k]
  {
    var p := Picks(ref, deltaRps, use, negative, |use|);
    forall j, k | 0 <= j < k < |p| ensures Visit(ref, negative, p[j]) != Visit(ref, negative, p[k]) {
      PicksAscend(ref, deltaRps, use, negative, |use|, j, k);
    }
  }
}

// What AID samples, by value: the rows that each round compares, the round after which it stops, and when that suffices.
module AidSampling {
  import opened Relations
  import opened Transversals
  import opened Partitions
  import opened AidTheory

  const PRIME: nat := 10619863
  const SIZE_LIMIT: nat := 0x1_0000_0000_0000_0000
  const WINDOW_SIZE: nat := 10
  const GROWTH_THRESHOLD: real := 0.01

  // ----- the rows that are compared -----

  ghost function RowsBefore(r: Relation, c: nat, value: int, v: nat): set<nat>
    requires c < r.numColumns && v <= |r.rows|
  {
    set u: nat | u < v && r.rows[u][c] == value
  }

  // How many earlier rows have the value of row t in the column: its place among the rows with this value.
  ghost function Place(r: Relation, c: nat, t: nat): nat
    requires c < r.numColumns && r.IsRow(t)
  {
    |RowsBefore(r, c, r.rows[t][c], t)|
  }

  // A round compares a row with one earlier row of the same value, if it has as many, and picks it by a multiple of a prime.
  ghost predicate IsPartner(r: Relation, c: nat, t: nat, round: nat, u: nat)
    requires c < r.numColumns && r.IsRow(t)
  {
    && u < t && r.rows[u][c] == r.rows[t][c] && 0 < Place(r, c, t) && round <= Place(r, c, t)
    && Place(r, c, u) == round * PRIME % SIZE_LIMIT % Place(r, c, t)
  }

  ghost predicate IsComparedUpTo(r: Relation, t: nat, round: nat, u: nat, n: nat)
    requires n <= r.numColumns && r.IsRow(t)
  {
    exists c: nat :: c < n && IsPartner(r, c, t, round, u)
  }

  // What a row adds in a round by its first n columns.
  ghost function SampledUpTo(r: Relation, t: nat, round: nat, n: nat): set<Vertical>
    requires n <= r.numColumns && r.IsRow(t)
  {
    set u: nat | u < t && IsComparedUpTo(r, t, round, u, n) :: r.AgreeSet(t, u)
  }

  ghost function SampledOf(r: Relation, t: nat, round: nat): set<Vertical>
    requires r.IsRow(t)
  {
    SampledUpTo(r, t, round, r.numColumns)
  }

  // What the first n rows add in a round.
  ghost function SampledIn(r: Relation, round: nat, n: nat): set<Vertical>
    requires n <= |r.rows|
  {
    set t: nat, s | t < n && s in SampledOf(r, t, round) :: s
  }

  // The sample after some rounds.
  ghost function Sampled(r: Relation, rounds: nat): set<Vertical> {
    if rounds == 0 then {} else Sampled(r, rounds - 1) + SampledIn(r, rounds, |r.rows|)
  }

  lemma {:induction false} SampledMeans(r: Relation, rounds: nat, s: Vertical)
    ensures s in Sampled(r, rounds) <==>
      exists k: nat, t: nat :: 1 <= k <= rounds && t < |r.rows| && s in SampledOf(r, t, k)
  {
    hide SampledOf;
    if rounds > 0 {
      SampledMeans(r, rounds - 1, s);
    }
  }

  lemma {:induction false} SampledMore(r: Relation, rounds: nat, more: nat)
    requires rounds <= more
    ensures Sampled(r, rounds) <= Sampled(r, more)
  {
    if rounds < more {
      SampledMore(r, rounds, more - 1);
    }
  }

  lemma {:induction false} SampledAreAgreeSets(r: Relation, rounds: nat)
    ensures Sampled(r, rounds) <= AgreeSets(r)
  {
    hide AgreeSets;
    if rounds > 0 {
      SampledAreAgreeSets(r, rounds - 1);
      forall t: nat, s | t < |r.rows| && s in SampledOf(r, t, rounds) ensures s in AgreeSets(r) {
        var u: nat :| u < t && s == r.AgreeSet(t, u);
        AgreeSetIsListed(r, t, u);
      }
    }
  }

  // ----- places -----

  lemma BeforeMore(r: Relation, c: nat, value: int, v: nat)
    requires c < r.numColumns && v < |r.rows|
    ensures RowsBefore(r, c, value, v + 1) == RowsBefore(r, c, value, v) + if r.rows[v][c] == value then {v} else {}
  {
  }

  // Of two rows with a value the later one has the larger place.
  lemma {:induction false} LaterPlace(r: Relation, c: nat, u: nat, v: nat)
    requires c < r.numColumns && u < v < |r.rows| && r.rows[u][c] == r.rows[v][c]
    ensures Place(r, c, u) < Place(r, c, v)
  {
    var value := r.rows[v][c];
    var before, after := RowsBefore(r, c, value, u), RowsBefore(r, c, value, v);
    assert before + {u} <= after && u !in before;
    SubsetSize(before + {u}, after);
  }

  // Every place below that of a row is taken by an earlier row with its value.
  lemma {:induction false} RowAtPlace(r: Relation, c: nat, value: int, v: nat, q: nat) returns (u: nat)
    requires c < r.numColumns && v <= |r.rows| && q < |RowsBefore(r, c, value, v)|
    ensures u < v && r.rows[u][c] == value && Place(r, c, u) == q
  {
    BeforeMore(r, c, value, v - 1);
    if r.rows[v - 1][c] == value && |RowsBefore(r, c, value, v - 1)| == q {
      u := v - 1;
    } else {
      u := RowAtPlace(r, c, value, v - 1, q);
    }
  }

  // A round has at most one partner for a row and column.
  lemma OnePartner(r: Relation, c: nat, t: nat, round: nat, u: nat, v: nat)
    requires c < r.numColumns && r.IsRow(t) && IsPartner(r, c, t, round, u) && IsPartner(r, c, t, round, v)
    ensures u == v
  {
    if u < v {
      LaterPlace(r, c, u, v);
    } else if v < u {
      LaterPlace(r, c, v, u);
    }
  }

  lemma NoneSampledYet(r: Relation, t: nat, round: nat)
    requires r.IsRow(t)
    ensures SampledUpTo(r, t, round, 0) == {}
  {
  }

  // A column adds the agree set with its partner, if it has one.
  lemma PartnerSampled(r: Relation, t: nat, round: nat, n: nat, u: nat)
    requires n < r.numColumns && r.IsRow(t) && IsPartner(r, n, t, round, u)
    ensures SampledUpTo(r, t, round, n + 1) == SampledUpTo(r, t, round, n) + {r.AgreeSet(t, u)}
  {
    hide IsPartner;
    forall v: nat | v < t
      ensures IsComparedUpTo(r, t, round, v, n + 1) <==> IsComparedUpTo(r, t, round, v, n) || v == u
    {
      if IsPartner(r, n, t, round, v) {
        OnePartner(r, n, t, round, u, v);
      }
      if IsComparedUpTo(r, t, round, v, n + 1) {
        var c: nat :| c < n + 1 && IsPartner(r, c, t, round, v);
        assert c < n || c == n;
      }
    }
    PartnerIsEarlier(r, n, t, round, u);
  }

  lemma PartnerIsEarlier(r: Relation, c: nat, t: nat, round: nat, u: nat)
    requires c < r.numColumns && r.IsRow(t) && IsPartner(r, c, t, round, u)
    ensures u < t
  {
  }

  lemma NoPartnerSampled(r: Relation, t: nat, round: nat, n: nat)
    requires n < r.numColumns && r.IsRow(t) && Place(r, n, t) < round
    ensures SampledUpTo(r, t, round, n + 1) == SampledUpTo(r, t, round, n)
  {
    hide Place;
    forall v: nat | v < t ensures IsComparedUpTo(r, t, round, v, n + 1) <==> IsComparedUpTo(r, t, round, v, n) {
      if IsComparedUpTo(r, t, round, v, n + 1) {
        var c: nat :| c < n + 1 && IsPartner(r, c, t, round, v);
        assert c < n;
      }
    }
  }

  lemma RowSampled(r: Relation, round: nat, n: nat)
    requires n < |r.rows|
    ensures SampledIn(r, round, n + 1) == SampledIn(r, round, n) + SampledOf(r, n, round)
  {
    hide SampledOf;
  }

  lemma PartnerInSample(r: Relation, c: nat, t: nat, round: nat, u: nat, rounds: nat)
    requires c < r.numColumns && r.IsRow(t) && IsPartner(r, c, t, round, u) && 1 <= round <= rounds
    ensures r.AgreeSet(t, u) in Sampled(r, rounds)
  {
    assert IsComparedUpTo(r, t, round, u, r.numColumns);
    assert r.AgreeSet(t, u) in SampledOf(r, t, round);
    SampledMeans(r, rounds, r.AgreeSet(t, u));
  }

  // Already the first round compares every row with some earlier row that shares its value in a column.
  lemma RepeatIsSampled(r: Relation, c: nat, t: nat, rounds: nat) returns (u: nat)
    requires c < r.numColumns && r.IsRow(t) && rounds >= 1 && exists v: nat :: v < t && r.rows[v][c] == r.rows[t][c]
    ensures u < t && r.rows[u][c] == r.rows[t][c] && r.AgreeSet(t, u) in Sampled(r, rounds)
  {
    var v: nat :| v < t && r.rows[v][c] == r.rows[t][c];
    assert v in RowsBefore(r, c, r.rows[t][c], t);
    var place := Place(r, c, t);
    u := RowAtPlace(r, c, r.rows[t][c], t, 1 * PRIME % SIZE_LIMIT % place);
    PartnerInSample(r, c, t, 1, u, rounds);
  }

  // ----- when sampling stops -----

  // The ratio by which a round makes the sample grow; the rounds before the first count as one.
  ghost function Growth(r: Relation, k: int): real {
    if k <= 0 then 1.0 else
      var before, after := |Sampled(r, k - 1)|, |Sampled(r, k)|;
      if before == 0 then (if after == 0 then 0.0 else 1.0) else after as real / before as real - 1.0
  }

  // The growth of the last n rounds.
  ghost function GrowthSum(r: Relation, k: int, n: nat): real
    decreases n
  {
    if n == 0 then 0.0 else Growth(r, k) + GrowthSum(r, k - 1, n - 1)
  }

  ghost predicate IsSmall(r: Relation, k: nat) {
    GrowthSum(r, k, WINDOW_SIZE) / WINDOW_SIZE as real < GROWTH_THRESHOLD
  }

  // The first round after which the average growth of the last ten is below the threshold.
  ghost predicate StopsAfter(r: Relation, k: nat) {
    k >= 1 && IsSmall(r, k) && forall j: nat :: 1 <= j < k ==> !IsSmall(r, j)
  }

  ghost function Rounds(r: Relation): (k: nat)
    ensures StopsAfter(r, k)
  {
    SilentInTheEnd(r, |r.rows| + 1);
    SomeStop(r, |r.rows| + WINDOW_SIZE);
    var k :| StopsAfter(r, k);
    k
  }

  lemma {:induction false} SomeStop(r: Relation, k: nat)
    requires k >= 1 && IsSmall(r, k)
    ensures exists j: nat :: StopsAfter(r, j) && j <= k
  {
    hide IsSmall, GrowthSum, Growth, Sampled, SampledIn, SampledOf, RowsBefore, Place;
    if j: nat :| 1 <= j < k && IsSmall(r, j) {
      SomeStop(r, j);
    } else {
      assert StopsAfter(r, k);
    }
  }

  lemma OneStop(r: Relation, k: nat)
    requires StopsAfter(r, k)
    ensures k == Rounds(r)
  {
    hide IsSmall;
  }

  lemma {:induction false} SumFromBack(r: Relation, k: int, n: nat)
    ensures GrowthSum(r, k, n + 1) == GrowthSum(r, k, n) + Growth(r, k - n)
    decreases n
  {
    hide Growth;
    if n > 0 {
      SumFromBack(r, k - 1, n - 1);
    }
  }

  // The window moves on by one round.
  lemma WindowMoves(r: Relation, k: int)
    ensures GrowthSum(r, k, WINDOW_SIZE) == GrowthSum(r, k - 1, WINDOW_SIZE) - Growth(r, k - WINDOW_SIZE) + Growth(r, k)
  {
    hide Growth;
    SumFromBack(r, k, WINDOW_SIZE);
    assert GrowthSum(r, k, WINDOW_SIZE + 1) == Growth(r, k) + GrowthSum(r, k - 1, WINDOW_SIZE);
  }

  lemma {:induction false} SumBeforeStart(r: Relation, k: int, n: nat)
    requires k <= 0
    ensures GrowthSum(r, k, n) == n as real
    decreases n
  {
    if n > 0 {
      SumBeforeStart(r, k - 1, n - 1);
    }
  }

  ghost predicate PlacesBelow(r: Relation, largest: nat) {
    forall c: nat, t: nat :: c < r.numColumns && t < |r.rows| ==> Place(r, c, t) < largest
  }

  // Past the most frequent value a round adds nothing.
  lemma NothingPast(r: Relation, largest: nat, k: nat)
    requires PlacesBelow(r, largest) && k >= largest && k >= 1
    ensures Sampled(r, k) == Sampled(r, k - 1) && Growth(r, k) == 0.0
  {
    hide PlacesBelow, SampledOf, Growth, Sampled;
    forall t: nat | t < |r.rows| ensures SampledOf(r, t, k) == {} {
      NothingOf(r, largest, t, k);
    }
    assert SampledIn(r, k, |r.rows|) == {};
    SameSample(r, k);
  }

  lemma SameSample(r: Relation, k: nat)
    requires k >= 1 && SampledIn(r, k, |r.rows|) == {}
    ensures Sampled(r, k) == Sampled(r, k - 1) && Growth(r, k) == 0.0
  {
    hide SampledIn;
  }

  lemma NothingOf(r: Relation, largest: nat, t: nat, k: nat)
    requires PlacesBelow(r, largest) && k >= largest && t < |r.rows|
    ensures SampledOf(r, t, k) == {}
  {
    hide Place;
    forall u: nat | u < t ensures !IsComparedUpTo(r, t, k, u, r.numColumns) {
      forall c: nat | c < r.numColumns ensures !IsPartner(r, c, t, k, u) {
        assert Place(r, c, t) < largest;
      }
    }
  }

  lemma {:induction false} NoGrowth(r: Relation, k: int, n: nat)
    requires forall j :: k - n < j <= k ==> Growth(r, j) == 0.0
    ensures GrowthSum(r, k, n) == 0.0
    decreases n
  {
    hide Growth;
    if n > 0 {
      NoGrowth(r, k - 1, n - 1);
    }
  }

  lemma SilentInTheEnd(r: Relation, largest: nat)
    requires largest >= 1 && (largest == |r.rows| + 1 || PlacesBelow(r, largest))
    ensures IsSmall(r, largest + WINDOW_SIZE - 1)
  {
    hide Place, Growth;
    if largest == |r.rows| + 1 {
      forall c: nat, t: nat | c < r.numColumns && t < |r.rows| ensures Place(r, c, t) < largest {
        PlaceBelowRow(r, c, t);
      }
    }
    var k := largest + WINDOW_SIZE - 1;
    forall j | k - WINDOW_SIZE < j <= k ensures Growth(r, j) == 0.0 {
      NothingPast(r, largest, j);
    }
    NoGrowth(r, k, WINDOW_SIZE);
  }

  lemma PlaceBelowRow(r: Relation, c: nat, t: nat)
    requires c < r.numColumns && t < |r.rows|
    ensures Place(r, c, t) <= t
  {
    SubsetSize(RowsBefore(r, c, r.rows[t][c], t), UpTo(t));
  }

  // Sampling ends at most ten rounds past the most frequent value.
  lemma RoundsAreBounded(r: Relation, largest: nat)
    requires largest >= 1 && PlacesBelow(r, largest)
    ensures Rounds(r) < largest + WINDOW_SIZE
  {
    hide PlacesBelow, IsSmall;
    SilentInTheEnd(r, largest);
    SomeStop(r, largest + WINDOW_SIZE - 1);
    var j: nat :| StopsAfter(r, j) && j <= largest + WINDOW_SIZE - 1;
    OneStop(r, j);
  }

  lemma GrowthNotNegative(r: Relation, k: int)
    ensures Growth(r, k) >= 0.0
  {
    if k > 0 {
      var before, after := |Sampled(r, k - 1)|, |Sampled(r, k)|;
      SubsetSize(Sampled(r, k - 1), Sampled(r, k));
      if before > 0 {
        AtLeastOne(after, before);
      }
    }
  }

  lemma AtLeastOne(after: nat, before: nat)
    requires 0 < before <= after
    ensures after as real / before as real >= 1.0
  {
    var b := before as real;
    var q := after as real / b;
    assert (q - 1.0) * b == after as real - b;
    assert q < 1.0 ==> (q - 1.0) * b < 0.0;
  }

  lemma {:induction false} SumHasTerm(r: Relation, k: int, n: nat, j: int)
    ensures GrowthSum(r, k, n) >= 0.0
    ensures k - n < j <= k ==> GrowthSum(r, k, n) >= Growth(r, j)
    decreases n
  {
    hide Growth;
    if n > 0 {
      GrowthNotNegative(r, k);
      SumHasTerm(r, k - 1, n - 1, j);
    }
  }

  // There are at least ten rounds, and at least eleven once anything is sampled.
  lemma RoundsAtLeast(r: Relation)
    ensures Rounds(r) >= WINDOW_SIZE
    ensures Sampled(r, 1) != {} ==> Rounds(r) > WINDOW_SIZE
  {
    hide SampledIn;
    var k := Rounds(r);
    if k < WINDOW_SIZE {
      SumHasTerm(r, k, WINDOW_SIZE, 0);
    }
    if k == WINDOW_SIZE {
      SumHasTerm(r, k, WINDOW_SIZE, 1);
      assert Sampled(r, 1) != {} ==> Growth(r, 1) == 1.0 by {
        assert Sampled(r, 0) == {};
      }
    }
  }

  // ----- when the sample suffices -----

  // The prime is coprime to every place up to eleven, so that the rounds up to the place pick each earlier row.
  lemma RoundFor(p: nat, q: nat) returns (k: nat)
    requires q < p <= 11
    ensures 1 <= k <= p && k * PRIME % SIZE_LIMIT % p == q
  {
    var inverse := [0, 0, 1, 1, 3, 2, 1, 4, 7, 4, 7, 1][p];
    assert 1 * PRIME % 2 == 1 * PRIME % 3 == 3 * PRIME % 4 == 2 * PRIME % 5 == 1 * PRIME % 6 == 4 * PRIME % 7 == 1;
    assert 7 * PRIME % 8 == 4 * PRIME % 9 == 7 * PRIME % 10 == 1 * PRIME % 11 == 1;
    k := q * inverse % p;
    if p > 1 {
      MultipleOfInverse(p, q, inverse, PRIME);
    }
    if k == 0 {
      k := p;
      ModIs(p * PRIME, p, PRIME, 0);
    }
    assert k * PRIME % SIZE_LIMIT == k * PRIME;
  }

  lemma MultipleOfInverse(p: nat, q: nat, inverse: nat, factor: nat)
    requires q < p && inverse * factor % p == 1
    ensures (q * inverse % p) * factor % p == q
  {
    var k, d, m := q * inverse % p, q * inverse / p, inverse * factor / p;
    assert q * inverse == p * d + k && inverse * factor == p * m + 1;
    calc {
      k * factor;
      (q * inverse - p * d) * factor;
      q * (inverse * factor) - p * (d * factor);
      q * (p * m + 1) - p * (d * factor);
      q + p * (q * m - d * factor);
    }
    ModIs(k * factor, p, q * m - d * factor, q);
  }

  lemma ModIs(x: int, p: int, e: int, q: int)
    requires 0 <= q < p && x == q + p * e
    ensures x % p == q
  {
    var f := x / p - e;
    assert x == p * (x / p) + x % p;
    assert p * f == q - x % p;
    assert f >= 1 ==> p * f >= p;
    assert f <= -1 ==> p * f <= -p;
  }

  lemma PairIsSampled(r: Relation, c: nat, u: nat, t: nat)
    requires c < r.numColumns && u < t < |r.rows| && r.rows[u][c] == r.rows[t][c] && Place(r, c, t) <= 11
    ensures r.AgreeSet(t, u) in Sampled(r, Rounds(r))
  {
    LaterPlace(r, c, u, t);
    var k := RoundFor(Place(r, c, t), Place(r, c, u));
    var v := RepeatIsSampled(r, c, t, 1);
    RoundsAtLeast(r);
    PartnerInSample(r, c, t, k, u, Rounds(r));
  }

  // No value of a column that is not constant occurs more than so many times.
  ghost predicate ValuesOccurAtMost(r: Relation, times: nat) {
    forall c: nat, value: int :: c < r.numColumns && c !in Constants(r) ==> |RowsBefore(r, c, value, |r.rows|)| <= times
  }

  lemma PlaceBelowCount(r: Relation, c: nat, t: nat)
    requires c < r.numColumns && t < |r.rows|
    ensures Place(r, c, t) < |RowsBefore(r, c, r.rows[t][c], |r.rows|)|
  {
    var before, all := RowsBefore(r, c, r.rows[t][c], t), RowsBefore(r, c, r.rows[t][c], |r.rows|);
    assert before + {t} <= all && t !in before;
    SubsetSize(before + {t}, all);
  }

  // As long as no value of a column that is not constant occurs more than twelve times, the sample suffices.
  lemma TwelveTimesSuffice(r: Relation)
    requires r.nullEqNull && ValuesOccurAtMost(r, 12)
    ensures SampleSuffices(r, Sampled(r, Rounds(r)))
  {
    hide AgreeSets, Constants, Sampled, RowsBefore;
    var negCover := Sampled(r, Rounds(r));
    forall n, a | n in AgreeSets(r) && a in r.Columns() && a !in n && !(n <= Constants(r)) ensures SampledAround(negCover, n, a) {
      var i, j := PairOf(r, n);
      var c :| c in n && c !in Constants(r);
      PlaceBelowCount(r, c, j);
      assert |RowsBefore(r, c, r.rows[j][c], |r.rows|)| <= 12;
      PairIsSampled(r, c, i, j);
      assert n in negCover && n <= n;
    }
  }

  // An agree set comes from two rows in their order.
  lemma PairOf(r: Relation, n: Vertical) returns (i: nat, j: nat)
    requires r.nullEqNull && n in AgreeSets(r)
    ensures i < j < |r.rows| && n == r.AgreeSet(j, i)
    ensures forall c :: c in n ==> c < r.numColumns && r.rows[i][c] == r.rows[j][c]
  {
    var p :| p in RowPairs(r) && n == r.AgreeSet(p.0, p.1);
    assert r.AgreeSet(p.0, p.1) == r.AgreeSet(p.1, p.0);
    i, j := if p.0 < p.1 then p.0 else p.1, if p.0 < p.1 then p.1 else p.0;
    forall c | c in n ensures c < r.numColumns && r.rows[i][c] == r.rows[j][c] {
      assert r.Same(j, i, c);
    }
  }

  // ----- thirteen times do not -----

  // In the first two columns zero occurs thirteen times, and only the rows 0 and 23 have it in both; the third is a key.
  function ThirteenTimes(): Relation {
    Relation(3, seq(24, (i: nat) => [if i <= 11 || i == 23 then 0 else i, if i == 0 || i >= 12 then 0 else i, i]), true)
  }

  lemma ThirteenAgree(t: nat, u: nat)
    requires u < t < 24
    ensures var s := ThirteenTimes().AgreeSet(t, u);
      && (0 in s <==> u <= 11 && (t <= 11 || t == 23))
      && (1 in s <==> (u == 0 || u >= 12) && t >= 12)
      && s <= {0, 1}
  {
  }

  lemma ThirteenPlaces()
    ensures Place(ThirteenTimes(), 0, 0) == Place(ThirteenTimes(), 1, 0) == 0
    ensures Place(ThirteenTimes(), 0, 1) == Place(ThirteenTimes(), 1, 12) == 1
    ensures Place(ThirteenTimes(), 0, 23) == Place(ThirteenTimes(), 1, 23) == 12
  {
    var r := ThirteenTimes();
    assert RowsBefore(r, 0, 0, 1) == {0} && RowsBefore(r, 1, 0, 12) == {0};
    assert RowsBefore(r, 0, 0, 23) == UpTo(12);
    assert RowsBefore(r, 1, 0, 23) == {0} + (UpTo(23) - UpTo(12));
    assert UpTo(23) == UpTo(12) + (UpTo(23) - UpTo(12));
  }

  // No round before the twelfth compares the rows 0 and 23.
  lemma ThirteenPartners(c: nat, t: nat, k: nat, u: nat)
    requires c < 3 && t < 24 && 1 <= k <= 11 && IsPartner(ThirteenTimes(), c, t, k, u)
    ensures ThirteenTimes().AgreeSet(t, u) in {{0}, {1}}
  {
    hide Place;
    var r := ThirteenTimes();
    var s := r.AgreeSet(t, u);
    ThirteenAgree(t, u);
    ThirteenPlaces();
    assert c < 2 && c in s;
    NotYet(k);
    assert 0 in s ==> s == {0};
    assert 1 in s ==> s == {1};
  }

  lemma NotYet(k: nat)
    requires 1 <= k <= 11
    ensures k * PRIME % SIZE_LIMIT % 12 != 0
  {
    assert k * PRIME % SIZE_LIMIT == k * PRIME;
  }

  lemma {:induction false} ThirteenSampled(k: nat)
    requires 1 <= k <= 11
    ensures Sampled(ThirteenTimes(), k) == {{0}, {1}}
  {
    hide IsPartner, SampledOf;
    var r := ThirteenTimes();
    forall t: nat, s | t < 24 && s in SampledOf(r, t, k) ensures s in {{0}, {1}} {
      ThirteenSampledOf(t, k, s);
    }
    if k == 1 {
      assert Sampled(r, 0) == {};
    } else {
      ThirteenSampled(k - 1);
    }
    ThirteenFound(k);
  }

  lemma ThirteenSampledOf(t: nat, k: nat, s: Vertical)
    requires t < 24 && 1 <= k <= 11 && s in SampledOf(ThirteenTimes(), t, k)
    ensures s in {{0}, {1}}
  {
    hide IsPartner;
    var r := ThirteenTimes();
    var u: nat :| u < t && IsComparedUpTo(r, t, k, u, 3) && s == r.AgreeSet(t, u);
    var c: nat :| c < 3 && IsPartner(r, c, t, k, u);
    ThirteenPartners(c, t, k, u);
  }

  lemma ThirteenFound(k: nat)
    requires k >= 1
    ensures {0} in Sampled(ThirteenTimes(), k) && {1} in Sampled(ThirteenTimes(), k)
  {
    hide Place, Sampled;
    var r := ThirteenTimes();
    ThirteenPlaces();
    ThirteenAgree(1, 0);
    ThirteenAgree(12, 0);
    PartnerInSample(r, 0, 1, 1, 0, k);
    PartnerInSample(r, 1, 12, 1, 0, k);
    assert r.AgreeSet(1, 0) == {0} && r.AgreeSet(12, 0) == {1};
  }

  lemma ZeroIsSmall(r: Relation, k: nat)
    requires GrowthSum(r, k, WINDOW_SIZE) == 0.0
    ensures IsSmall(r, k)
  {
  }

  lemma ThirteenRounds()
    ensures Rounds(ThirteenTimes()) == 11
  {
    hide Sampled, IsSmall;
    var r := ThirteenTimes();
    forall k | 1 < k <= 11 ensures Growth(r, k) == 0.0 {
      ThirteenSampled(k);
      ThirteenSampled(k - 1);
    }
    NoGrowth(r, 11, WINDOW_SIZE);
    ZeroIsSmall(r, 11);
    SomeStop(r, 11);
    var j: nat :| StopsAfter(r, j) && j <= 11;
    OneStop(r, j);
    RoundsAtLeast(r);
    ThirteenSampled(1);
  }

  lemma ThirteenOccur(c: nat, value: int)
    requires c < 3
    ensures |RowsBefore(ThirteenTimes(), c, value, 24)| <= 13
  {
    var rows := RowsBefore(ThirteenTimes(), c, value, 24);
    var some: set<nat> := if value != 0 || c == 2 then (if value >= 0 then {value} else {})
      else if c == 0 then UpTo(12) + {23} else {0} + (UpTo(24) - UpTo(12));
    forall u | u in rows ensures u in some {
      ThirteenValue(c, u);
    }
    SubsetSize(rows, some);
    assert UpTo(24) == UpTo(12) + (UpTo(24) - UpTo(12));
  }

  lemma ThirteenValue(c: nat, t: nat)
    requires c < 3 && t < 24
    ensures var value := ThirteenTimes().rows[t][c];
      if (c == 0 && (t <= 11 || t == 23)) || (c == 1 && (t == 0 || t >= 12)) then value == 0 else value == t
  {
  }

  // With thirteen times the sample can miss an agree set: sampling stops after eleven rounds, before the two rows are compared.
  lemma ThirteenTimesMiss()
    ensures ValuesOccurAtMost(ThirteenTimes(), 13)
    ensures !SampleSuffices(ThirteenTimes(), Sampled(ThirteenTimes(), Rounds(ThirteenTimes())))
  {
    hide RowsBefore, Sampled, AgreeSets, Rounds;
    var r := ThirteenTimes();
    forall c: nat, value: int | c < r.numColumns ensures |RowsBefore(r, c, value, |r.rows|)| <= 13 {
      ThirteenOccur(c, value);
    }
    ThirteenRounds();
    ThirteenSampled(11);
    ThirteenAgree(23, 0);
    AgreeSetIsListed(r, 23, 0);
    assert r.AgreeSet(23, 0) == {0, 1};
    ThirteenNotConstant();
    var negCover := Sampled(r, 11);
    forall m | m in negCover ensures !({0, 1} <= m) {
      assert 0 in {0, 1} && 1 in {0, 1};
    }
    assert !SampledAround(negCover, {0, 1}, 2);
  }

  lemma ThirteenNotConstant()
    ensures 0 !in Constants(ThirteenTimes())
  {
    var r := ThirteenTimes();
    ThirteenAgree(12, 1);
    assert r.Agree({}, 12, 1);
  }
}

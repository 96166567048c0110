/** The pure logic of the search page, `src/app/search/page.tsx`: the
    figures shown on each DPE card, the colour of the rating badge, the
    ten-per-page pagination and the local update after a save. */
module SearchPage {
  import opened Models
  import opened Lists
  import SaveRoute

  /** A figure on a card: a number, or the placeholder text shown instead. */
  datatype Figure = Unavailable(text: string) | Value(x: real)

  // ---------------------------------------------------------------------
  // Sums, extremes and means of integer ratings

  function Sum(xs: seq<int>): int {
    if |xs| == 0 then 0 else xs[0] + Sum(xs[1..])
  }

  function Min(xs: seq<int>): (m: int)
    requires |xs| > 0
    ensures m in xs && forall i | 0 <= i < |xs| :: m <= xs[i]
  {
    if |xs| == 1 then xs[0]
    else
      var m := Min(xs[1..]);
      assert forall i | 1 <= i < |xs| :: xs[i] == xs[1..][i - 1];
      if xs[0] <= m then xs[0] else m
  }

  function Max(xs: seq<int>): (m: int)
    requires |xs| > 0
    ensures m in xs && forall i | 0 <= i < |xs| :: xs[i] <= m
  {
    if |xs| == 1 then xs[0]
    else
      var m := Max(xs[1..]);
      assert forall i | 1 <= i < |xs| :: xs[i] == xs[1..][i - 1];
      if m <= xs[0] then xs[0] else m
  }

  /** A sum of values that all lie in [lo, hi] lies in [lo·n, hi·n]. */
  lemma {:induction false} SumBounds(xs: seq<int>, lo: int, hi: int)
    requires forall i | 0 <= i < |xs| :: lo <= xs[i] <= hi
    ensures lo * |xs| <= Sum(xs) <= hi * |xs|
  {
    if |xs| > 0 {
      var t := xs[1..];
      assert forall i | 0 <= i < |t| :: t[i] == xs[i + 1];
      SumBounds(t, lo, hi);
      assert lo * |xs| == lo * |t| + lo;
      assert hi * |xs| == hi * |t| + hi;
    }
  }

  lemma {:induction false} SumConcat(a: seq<int>, b: seq<int>)
    ensures Sum(a + b) == Sum(a) + Sum(b)
  {
    if |a| > 0 {
      assert (a + b)[0] == a[0];
      assert (a + b)[1..] == a[1..] + b;
      SumConcat(a[1..], b);
    } else {
      assert a + b == b;
    }
  }

  /** The arithmetic mean: the value that, taken once per entry, adds up
      to the sum. */
  function Mean(xs: seq<int>): (m: real)
    requires |xs| > 0
    ensures m * |xs| as real == Sum(xs) as real
  {
    Sum(xs) as real / |xs| as real
  }

  /** A value `m` with m·n = s, where s lies in [lo·n, hi·n], lies in
      [lo, hi]. */
  lemma ScaledBounds(m: real, n: int, s: int, lo: int, hi: int)
    requires n > 0 && m * n as real == s as real && lo * n <= s <= hi * n
    ensures lo as real <= m <= hi as real
  {
    assert (lo * n) as real == lo as real * n as real;
    assert (hi * n) as real == hi as real * n as real;
  }

  /** The mean of values that all lie in [lo, hi] lies in [lo, hi]. */
  lemma MeanBetween(xs: seq<int>, lo: int, hi: int)
    requires |xs| > 0
    requires forall i | 0 <= i < |xs| :: lo <= xs[i] <= hi
    ensures lo as real <= Mean(xs) <= hi as real
  {
    SumBounds(xs, lo, hi);
    ScaledBounds(Mean(xs), |xs|, Sum(xs), lo, hi);
  }

  /** The mean lies between the smallest and the largest value. */
  lemma MeanWithinExtremes(xs: seq<int>)
    requires |xs| > 0
    ensures Min(xs) as real <= Mean(xs) <= Max(xs) as real
  {
    MeanBetween(xs, Min(xs), Max(xs));
  }

  /** `count / total * 100`, the percentage of `count` in `total`. */
  function Percent(count: nat, total: nat): (p: real)
    requires 0 < total && count <= total
    ensures p * total as real == 100.0 * count as real
    ensures 0.0 <= p <= 100.0
    ensures p == 0.0 <==> count == 0
    ensures p == 100.0 <==> count == total
  {
    var p := (count as real / total as real) * 100.0;
    assert (count as real / total as real) * total as real == count as real;
    assert count as real <= total as real;
    p
  }

  /** For a mean `m` of `n` values summing to `s`: m ≥ c exactly when
      s ≥ c·n. */
  lemma ScaleCompare(m: real, n: nat, s: int, c: int)
    requires n > 0 && m * n as real == s as real
    ensures m >= c as real <==> s >= c * n
  {
    assert (c * n) as real == c as real * n as real;
    if m >= c as real {
      assert m * n as real >= c as real * n as real;
    } else {
      assert m * n as real < c as real * n as real;
    }
  }

  // ---------------------------------------------------------------------
  // The card figures

  function OverallRatings(rs: seq<Review>): (xs: seq<int>)
    ensures |xs| == |rs| && forall i | 0 <= i < |rs| :: xs[i] == rs[i].overallRating
  {
    seq(|rs|, i requires 0 <= i < |rs| => rs[i].overallRating)
  }

  /** `calculateAverageRating`: "N/A" without reviews, otherwise the mean of
      the overall ratings. */
  function AverageRating(rs: seq<Review>): (r: Figure)
    ensures r.Unavailable? <==> |rs| == 0
    ensures r.Unavailable? ==> r.text == "N/A"
    ensures r.Value? ==> r.x * |rs| as real == Sum(OverallRatings(rs)) as real
  {
    if |rs| == 0 then Unavailable("N/A") else Value(Mean(OverallRatings(rs)))
  }

  /** The average rating lies between the lowest and the highest rating. */
  lemma AverageRatingBounds(rs: seq<Review>)
    requires |rs| > 0
    ensures Min(OverallRatings(rs)) as real <= AverageRating(rs).x <= Max(OverallRatings(rs)) as real
  {
    MeanWithinExtremes(OverallRatings(rs));
  }

  /** A review counts for difficulty when its rating is present and
      non-zero (the value is truthy). */
  predicate HasDifficulty(r: Review) {
    r.difficultyRating.Some? && r.difficultyRating.value != 0
  }

  /** The difficulty ratings of the reviews that have one, in order. */
  function Difficulties(rs: seq<Review>): (xs: seq<int>)
    ensures |xs| == |Filter(rs, HasDifficulty)|
    ensures forall i | 0 <= i < |xs| :: xs[i] != 0
  {
    var rated := Filter(rs, HasDifficulty);
    assert forall i | 0 <= i < |rated| :: rated[i] in rated;
    seq(|rated|, i requires 0 <= i < |rated| => assert rated[i] in rated; rated[i].difficultyRating.value)
  }

  /** The i-th difficulty is the rating of the i-th review that has one. */
  lemma DifficultiesAreRatings(rs: seq<Review>)
    ensures forall i | 0 <= i < |Difficulties(rs)| ::
      Filter(rs, HasDifficulty)[i].difficultyRating == Some(Difficulties(rs)[i])
  {
  }

  /** `calculateAverageDifficulty`: the mean over the reviews with a
      non-zero difficulty, "N/A" when there are none. */
  function AverageDifficulty(rs: seq<Review>): (r: Figure)
    ensures r.Unavailable? <==> forall i | 0 <= i < |rs| :: !HasDifficulty(rs[i])
    ensures r.Unavailable? ==> r.text == "N/A"
    ensures r.Value? ==> |Difficulties(rs)| > 0
    ensures r.Value? ==> r.x == Mean(Difficulties(rs))
  {
    NoDifficulties(rs);
    var r := MeanOrNA(Difficulties(rs));
    assert r.Unavailable? <==> |Difficulties(rs)| == 0;
    r
  }

  /** The mean of a list of values, "N/A" when it is empty. */
  function MeanOrNA(xs: seq<int>): (r: Figure)
    ensures r.Unavailable? <==> |xs| == 0
    ensures r.Unavailable? ==> r.text == "N/A"
    ensures r.Value? ==> |xs| > 0 && r.x == Mean(xs)
  {
    if |xs| == 0 then Unavailable("N/A") else Value(Mean(xs))
  }

  /** No difficulty counts exactly when no review has one. */
  lemma NoDifficulties(rs: seq<Review>)
    ensures |Difficulties(rs)| == 0 <==> forall i | 0 <= i < |rs| :: !HasDifficulty(rs[i])
  {
    var f := Filter(rs, HasDifficulty);
    if |f| == 0 {
      assert forall i | 0 <= i < |rs| :: HasDifficulty(rs[i]) ==> rs[i] in f;
    } else {
      assert f[0] in rs;
    }
  }

  /** The average difficulty lies between the lowest and the highest of
      the difficulties that count. */
  lemma AverageDifficultyBounds(rs: seq<Review>)
    requires AverageDifficulty(rs).Value?
    ensures Min(Difficulties(rs)) as real <= AverageDifficulty(rs).x <= Max(Difficulties(rs)) as real
  {
    MeanWithinExtremes(Difficulties(rs));
  }

  /** Unrated reviews leave the average difficulty untouched. */
  lemma UnratedDifficultyIgnored(rs: seq<Review>, extra: Review)
    requires !HasDifficulty(extra)
    ensures AverageDifficulty(rs + [extra]) == AverageDifficulty(rs)
  {
    FilterConcat(rs, [extra], HasDifficulty);
    assert Filter([extra], HasDifficulty) == [];
    assert Filter(rs + [extra], HasDifficulty) == Filter(rs, HasDifficulty);
    assert Difficulties(rs + [extra]) == Difficulties(rs);
  }

  predicate IsSet(f: Option<bool>) { f.Some? }
  predicate IsTrue(f: Option<bool>) { f == Some(true) }

  /** The share, in percent, of true flags among the flags that are set;
      `missing` is shown when no flag is set. */
  function FlagRate(flags: seq<Option<bool>>, missing: string): (r: Figure)
    ensures r.Unavailable? <==> forall i | 0 <= i < |flags| :: flags[i].None?
    ensures r.Unavailable? ==> r.text == missing
    ensures r.Value? ==> 0.0 <= r.x <= 100.0
    ensures r.Value? <==> |Filter(flags, IsSet)| > 0
    ensures r.Value? ==> r.x == Percent(|Filter(Filter(flags, IsSet), IsTrue)|, |Filter(flags, IsSet)|)
    ensures r.Value? ==> (r.x == 0.0 <==> |Filter(Filter(flags, IsSet), IsTrue)| == 0)
    ensures r.Value? ==> (r.x == 100.0 <==> |Filter(Filter(flags, IsSet), IsTrue)| == |Filter(flags, IsSet)|)
  {
    var withStatus := Filter(flags, IsSet);
    if |withStatus| == 0 then
      assert forall i | 0 <= i < |flags| :: flags[i].Some? ==> flags[i] in withStatus;
      Unavailable(missing)
    else
      var w := withStatus[0];
      assert w in flags && w.Some?;
      var k :| 0 <= k < |flags| && flags[k] == w;
      var count, total := |Filter(withStatus, IsTrue)|, |withStatus|;
      Value(Percent(count, total))
  }

  /** The rate is 100 exactly when some flag is set and every set flag is
      true. */
  lemma {:induction false} FullRate(flags: seq<Option<bool>>, missing: string)
    ensures FlagRate(flags, missing) == Value(100.0) <==>
      (exists i | 0 <= i < |flags| :: flags[i].Some?) &&
      (forall i | 0 <= i < |flags| :: flags[i].Some? ==> flags[i] == Some(true))
  {
    var withStatus := Filter(flags, IsSet);
    FilterKeepsAll(withStatus, IsTrue);
    if (forall i | 0 <= i < |flags| :: flags[i].Some? ==> flags[i] == Some(true)) {
      forall i | 0 <= i < |withStatus| ensures IsTrue(withStatus[i]) {
        assert withStatus[i] in flags;
      }
    } else {
      var k :| 0 <= k < |flags| && flags[k].Some? && flags[k] != Some(true);
      assert flags[k] in withStatus;
      var j :| 0 <= j < |withStatus| && withStatus[j] == flags[k];
      assert !AllPass(withStatus, IsTrue);
    }
  }

  /** The rate is 0 exactly when some flag is set and no set flag is true. */
  lemma {:induction false} ZeroRate(flags: seq<Option<bool>>, missing: string)
    ensures FlagRate(flags, missing) == Value(0.0) <==>
      (exists i | 0 <= i < |flags| :: flags[i].Some?) &&
      (forall i | 0 <= i < |flags| :: flags[i] != Some(true))
  {
    var withStatus := Filter(flags, IsSet);
    var trues := Filter(withStatus, IsTrue);
    if exists i | 0 <= i < |flags| :: flags[i].Some? {
      var i :| 0 <= i < |flags| && flags[i].Some?;
      assert flags[i] in withStatus;
    }
    if forall i | 0 <= i < |flags| :: flags[i] != Some(true) {
      assert Some(true) !in flags;
      assert forall i | 0 <= i < |withStatus| :: withStatus[i] in withStatus && withStatus[i] in flags;
      FilterNone(withStatus, IsTrue);
    } else {
      var k :| 0 <= k < |flags| && flags[k] == Some(true);
      assert flags[k] in trues;
      assert flags[k] in withStatus;
    }
  }

  function PassFlags(rs: seq<Review>): (fs: seq<Option<bool>>)
    ensures |fs| == |rs| && forall i | 0 <= i < |rs| :: fs[i] == rs[i].checkridePassed
  {
    seq(|rs|, i requires 0 <= i < |rs| => rs[i].checkridePassed)
  }

  function RecommendFlags(rs: seq<Review>): (fs: seq<Option<bool>>)
    ensures |fs| == |rs| && forall i | 0 <= i < |rs| :: fs[i] == rs[i].wouldRecommend
  {
    seq(|rs|, i requires 0 <= i < |rs| => rs[i].wouldRecommend)
  }

  /** `calculatePassRate`: "No data" when no review records an outcome. */
  function PassRate(rs: seq<Review>): (r: Figure)
    ensures r.Unavailable? <==> forall i | 0 <= i < |rs| :: rs[i].checkridePassed.None?
    ensures r.Unavailable? ==> r.text == "No data"
    ensures r.Value? ==> 0.0 <= r.x <= 100.0
    ensures r.Value? <==> |Filter(PassFlags(rs), IsSet)| > 0
    ensures r.Value? ==> r.x == Percent(|Filter(Filter(PassFlags(rs), IsSet), IsTrue)|, |Filter(PassFlags(rs), IsSet)|)
  {
    FlagRate(PassFlags(rs), "No data")
  }

  /** `calculateRecommendRate`: "N/A" when no review records a
      recommendation. */
  function RecommendRate(rs: seq<Review>): (r: Figure)
    ensures r.Unavailable? <==> forall i | 0 <= i < |rs| :: rs[i].wouldRecommend.None?
    ensures r.Unavailable? ==> r.text == "N/A"
    ensures r.Value? ==> 0.0 <= r.x <= 100.0
    ensures r.Value? <==> |Filter(RecommendFlags(rs), IsSet)| > 0
    ensures r.Value? ==> r.x == Percent(|Filter(Filter(RecommendFlags(rs), IsSet), IsTrue)|, |Filter(RecommendFlags(rs), IsSet)|)
  {
    FlagRate(RecommendFlags(rs), "N/A")
  }

  /** The rate depends only on the flags that are set: appending an unset
      flag changes nothing. */
  lemma UnsetFlagIgnored(flags: seq<Option<bool>>, missing: string)
    ensures FlagRate(flags + [None], missing) == FlagRate(flags, missing)
  {
    FilterConcat(flags, [None], IsSet);
    assert Filter([None], IsSet) == [];
    assert Filter(flags + [None], IsSet) == Filter(flags, IsSet);
  }

  /** A review without a checkride outcome leaves the pass rate unchanged. */
  lemma UnrecordedOutcomeIgnored(rs: seq<Review>, extra: Review)
    requires extra.checkridePassed.None?
    ensures PassRate(rs + [extra]) == PassRate(rs)
  {
    assert PassFlags(rs + [extra]) == PassFlags(rs) + [None];
    UnsetFlagIgnored(PassFlags(rs), "No data");
  }

  /** A review without a recommendation leaves the recommend rate
      unchanged. */
  lemma UnansweredRecommendationIgnored(rs: seq<Review>, extra: Review)
    requires extra.wouldRecommend.None?
    ensures RecommendRate(rs + [extra]) == RecommendRate(rs)
  {
    assert RecommendFlags(rs + [extra]) == RecommendFlags(rs) + [None];
    UnsetFlagIgnored(RecommendFlags(rs), "N/A");
  }

  // ---------------------------------------------------------------------
  // Rating colour

  datatype Colour = Gray | Red | Yellow | Green

  /** Position of a colour on the badge scale. */
  function Rank(c: Colour): int {
    match c
    case Gray => 0
    case Red => 1
    case Yellow => 2
    case Green => 3
  }

  /** `getRatingColor`: gray for the "N/A" text, then thresholds at 4.0 and
      3.0. Any other text parses to NaN, fails both thresholds and is red. */
  function RatingColour(rating: Figure): (c: Colour)
    ensures c == Gray <==> rating == Unavailable("N/A")
    ensures c == Green <==> rating.Value? && rating.x >= 4.0
    ensures c == Yellow <==> rating.Value? && 3.0 <= rating.x < 4.0
  {
    match rating
    case Unavailable(t) => if t == "N/A" then Gray else Red
    case Value(x) => if x >= 4.0 then Green else if x >= 3.0 then Yellow else Red
  }

  /** A higher average never gets a worse badge. */
  lemma ColourMonotone(x: real, y: real)
    requires x <= y
    ensures Rank(RatingColour(Value(x))) <= Rank(RatingColour(Value(y)))
  {
  }

  /** The badge of a card is gray exactly when the DPE has no reviews, and
      green exactly when the average is at least 4. */
  lemma CardColour(rs: seq<Review>)
    ensures RatingColour(AverageRating(rs)) == Gray <==> |rs| == 0
    ensures RatingColour(AverageRating(rs)) == Green <==> |rs| > 0 && Sum(OverallRatings(rs)) >= 4 * |rs|
  {
    if |rs| > 0 {
      ScaleCompare(AverageRating(rs).x, |rs|, Sum(OverallRatings(rs)), 4);
    }
  }

  /** `parseFloat(x.toFixed(1))` on the exact value: the nearest tenth,
      halves rounded up. */
  function Round1(x: real): (r: real)
    ensures x - 0.05 < r <= x + 0.05
    ensures OneDecimal(r)
  {
    var k := (10.0 * x + 0.5).Floor;
    assert k as real <= 10.0 * x + 0.5 < k as real + 1.0;
    k as real / 10.0
  }

  /** The value has at most one digit after the decimal point. */
  predicate OneDecimal(y: real) {
    (10.0 * y).Floor as real == 10.0 * y
  }

  /** The one-decimal value within (x - 0.05, x + 0.05] is unique, so the
      contract of `Round1` fixes its result, halves rounding up. */
  lemma OneDecimalUnique(x: real, y: real)
    requires OneDecimal(y) && x - 0.05 < y <= x + 0.05
    ensures y == Round1(x)
  {
    var i, j := (10.0 * y).Floor, (10.0 * Round1(x)).Floor;
    assert i as real - j as real < 1.0 && j as real - i as real < 1.0;
    assert i == j;
  }

  /** A rounded value reaches a whole number `c` exactly when the value
      reaches `c - 0.05`. */
  lemma RoundAtLeast(x: real, c: int)
    ensures Round1(x) >= c as real <==> 10.0 * x + 0.5 >= (10 * c) as real
  {
    var y := 10.0 * x + 0.5;
    var k := y.Floor;
    assert Round1(x) == k as real / 10.0;
    assert k as real <= y < k as real + 1.0;
    assert Round1(x) >= c as real <==> k >= 10 * c;
    if y >= (10 * c) as real {
      assert k > 10 * c - 1;
    }
  }

  /** Rounding never leaves an interval with whole-number ends. */
  lemma RoundWithin(x: real, lo: int, hi: int)
    requires lo as real <= x <= hi as real
    ensures lo as real <= Round1(x) <= hi as real
  {
    RoundAtLeast(x, lo);
    var k := (10.0 * x + 0.5).Floor;
    assert Round1(x) == k as real / 10.0;
    assert k as real <= 10.0 * x + 0.5;
    assert k <= 10 * hi;
  }

  /** The text the badge receives: the average rating as `toFixed(1)`
      prints it. */
  function ShownRating(rs: seq<Review>): (r: Figure)
    ensures r.Unavailable? <==> |rs| == 0
    ensures r.Unavailable? ==> r.text == "N/A"
    ensures r.Value? ==> AverageRating(rs).x - 0.05 < r.x <= AverageRating(rs).x + 0.05
    ensures r.Value? ==> OneDecimal(r.x)
  {
    match AverageRating(rs)
    case Unavailable(t) => Unavailable(t)
    case Value(m) => Value(Round1(m))
  }

  /** Rounding keeps the shown rating between the lowest and the highest
      rating. */
  lemma ShownRatingBounds(rs: seq<Review>)
    requires |rs| > 0
    ensures Min(OverallRatings(rs)) as real <= ShownRating(rs).x <= Max(OverallRatings(rs)) as real
  {
    AverageRatingBounds(rs);
    RoundWithin(AverageRating(rs).x, Min(OverallRatings(rs)), Max(OverallRatings(rs)));
  }

  /** For a mean `m` of `n` values summing to `s`: the rounded mean
      reaches the whole number `c` exactly when 20·s ≥ (20·c − 1)·n. */
  lemma RoundedMeanAtLeast(m: real, n: nat, s: int, c: int)
    requires n > 0 && m * n as real == s as real
    ensures Round1(m) >= c as real <==> 20 * s >= (20 * c - 1) * n
  {
    RoundAtLeast(m, c);
    assert (20.0 * m) * n as real == (20 * s) as real;
    ScaleCompare(20.0 * m, n, 20 * s, 20 * c - 1);
  }

  /** The badge as the page colours it: green from a mean of 3.95 on
      (the mean is rounded before the threshold), yellow from 2.95. */
  lemma BadgeColour(rs: seq<Review>)
    ensures RatingColour(ShownRating(rs)) == Gray <==> |rs| == 0
    ensures RatingColour(ShownRating(rs)) == Green <==> |rs| > 0 && 20 * Sum(OverallRatings(rs)) >= 79 * |rs|
    ensures RatingColour(ShownRating(rs)) == Yellow <==>
      |rs| > 0 && 59 * |rs| <= 20 * Sum(OverallRatings(rs)) < 79 * |rs|
  {
    if |rs| > 0 {
      var n, s, m := |rs|, Sum(OverallRatings(rs)), AverageRating(rs).x;
      var r := Round1(m);
      assert ShownRating(rs) == Value(r);
      RoundedMeanAtLeast(m, n, s, 4);
      RoundedMeanAtLeast(m, n, s, 3);
      assert r >= 4.0 <==> 20 * s >= 79 * n;
      assert r >= 3.0 <==> 20 * s >= 59 * n;
    }
  }

  // ---------------------------------------------------------------------
  // Pagination

  const ItemsPerPage: nat := 10

  /** `Math.ceil(n / ITEMS_PER_PAGE)`. */
  function TotalPages(n: nat): (r: nat)
    ensures n == 0 ==> r == 0
    ensures n > 0 ==> (r - 1) * ItemsPerPage < n <= r * ItemsPerPage
  {
    (n + ItemsPerPage - 1) / ItemsPerPage
  }

  /** How `Array.prototype.slice` resolves an index: an index in range is
      kept, a negative one counts back from the end, and one past either
      end stops at that end. */
  function SliceIndex(len: nat, x: int): (r: nat)
    ensures r <= len
    ensures 0 <= x <= len ==> r == x
    ensures -(len as int) <= x < 0 ==> r as int - x == len
    ensures x > len ==> r == len
    ensures x < -(len as int) ==> r == 0
  {
    if x < 0 then (if len + x < 0 then 0 else len + x)
    else if x > len then len else x
  }

  /** `s.slice(start, end)`: the run of elements from the resolved start up
      to the resolved end, empty when the end does not come after the
      start. */
  function Slice<T>(s: seq<T>, start: int, end: int): (r: seq<T>)
    ensures var from, to := SliceIndex(|s|, start), SliceIndex(|s|, end);
      && |r| == (if from < to then to - from else 0)
      && from + |r| <= |s|
      && forall i | 0 <= i < |r| :: r[i] == s[from + i]
  {
    var from, to := SliceIndex(|s|, start), SliceIndex(|s|, end);
    if from < to then s[from..to] else []
  }

  /** Slicing from 0 to the length copies the list, and a start of -k
      takes its last k elements, except that -0 is 0 and takes them all. */
  lemma SliceFromEnd<T>(s: seq<T>, k: nat)
    requires k <= |s|
    ensures Slice(s, 0, |s|) == s
    ensures Slice(s, -(k as int), |s|) == if k == 0 then s else s[|s| - k..]
  {
  }

  function ClampTo(n: nat, x: nat): (r: nat)
    ensures r <= n && r <= x && (r == n || r == x)
  {
    if x < n then x else n
  }

  /** `paginatedDPEs` for `currentPage == page`. Page p (p ≥ 1) is the
      window [(p-1)·10, p·10) cut to the list; no page, not even one
      outside the range the buttons offer, holds more than 10 entries. */
  function Page<T>(s: seq<T>, page: int): (r: seq<T>)
    ensures |r| <= ItemsPerPage
    ensures page >= 1 ==>
      r == s[ClampTo(|s|, (page - 1) * ItemsPerPage)..ClampTo(|s|, page * ItemsPerPage)]
  {
    Slice(s, (page - 1) * ItemsPerPage, page * ItemsPerPage)
  }

  /** Pages 1..k one after the other. */
  function Pages<T>(s: seq<T>, k: nat): seq<T> {
    if k == 0 then [] else Pages(s, k - 1) + Page(s, k)
  }

  lemma {:induction false} PagesArePrefix<T>(s: seq<T>, k: nat)
    ensures Pages(s, k) == s[..ClampTo(|s|, k * ItemsPerPage)]
  {
    if k > 0 {
      PagesArePrefix(s, k - 1);
      var a, b := ClampTo(|s|, (k - 1) * ItemsPerPage), ClampTo(|s|, k * ItemsPerPage);
      assert s[..b] == s[..a] + s[a..b];
    }
  }

  /** Pages 1..totalPages, in order, are exactly the list: every entry is
      on one page and the pages do not overlap or reorder. */
  lemma PagesPartition<T>(s: seq<T>)
    ensures Pages(s, TotalPages(|s|)) == s
  {
    PagesArePrefix(s, TotalPages(|s|));
  }

  /** Every page the buttons offer has an entry; every page after the last
      is empty. */
  lemma PageOccupancy<T>(s: seq<T>, page: int)
    ensures 1 <= page <= TotalPages(|s|) ==> |Page(s, page)| > 0
    ensures page > TotalPages(|s|) ==> Page(s, page) == []
  {
    var n := TotalPages(|s|);
    if page > n {
      assert (page - 1) * ItemsPerPage >= n * ItemsPerPage;
    } else if 1 <= page {
      assert (page - 1) * ItemsPerPage <= (n - 1) * ItemsPerPage;
    }
  }

  // ---------------------------------------------------------------------
  // Saving from the result list

  /** The page state `handleSaveDPE` touches. */
  datatype SearchState = SearchState(dpes: seq<Dpe>, showSignInPrompt: bool)

  /** The card's copy of the save relation after the server answered. */
  function LocalSavedBy(d: Dpe, u: UserId, saved: bool): Dpe {
    d.(savedByUserIds := if saved then d.savedByUserIds + [u] else RemoveAll(d.savedByUserIds, u))
  }

  /** `handleSaveDPE(dpeId)`. `answer` is the `saved` flag of a successful
      response, or `None` when the request failed (the page then keeps its
      list). Without a session only the sign-in prompt opens. */
  function LocalSave(ps: SearchState, session: Option<UserId>, dpeId: DpeId, answer: Option<bool>): (r: SearchState)
    ensures session.None? ==> r == ps.(showSignInPrompt := true)
    ensures session.Some? ==> r.showSignInPrompt == ps.showSignInPrompt
    ensures |r.dpes| == |ps.dpes|
    ensures forall i | 0 <= i < |ps.dpes| && (session.None? || answer.None? || ps.dpes[i].id != dpeId) ::
      r.dpes[i] == ps.dpes[i]
    ensures session.Some? && answer.Some? ==>
      forall i | 0 <= i < |ps.dpes| && ps.dpes[i].id == dpeId ::
        && r.dpes[i] == ps.dpes[i].(savedByUserIds := r.dpes[i].savedByUserIds)
        && (answer.value ==> r.dpes[i].savedByUserIds == ps.dpes[i].savedByUserIds + [session.value])
        && (!answer.value ==> r.dpes[i].savedByUserIds == RemoveAll(ps.dpes[i].savedByUserIds, session.value))
  {
    if session.None? then ps.(showSignInPrompt := true)
    else if answer.None? then ps
    else
      ps.(dpes := seq(|ps.dpes|, i requires 0 <= i < |ps.dpes| =>
        if ps.dpes[i].id == dpeId then LocalSavedBy(ps.dpes[i], session.value, answer.value) else ps.dpes[i]))
  }

  /** The page's optimistic copy follows the server: if the card showed the
      stored list before the request, it shows the stored list after it. */
  lemma LocalSaveMirrorsServer(st: Store, ps: SearchState, u: UserId, i: int)
    requires 0 <= i < |ps.dpes|
    requires ps.dpes[i].id in st.dpes && ps.dpes[i].savedByUserIds == st.dpes[ps.dpes[i].id].savedByUserIds
    requires SaveRoute.Toggle(st, Some(u), Some(ps.dpes[i].id)).response.Toggled?
    ensures var out := SaveRoute.Toggle(st, Some(u), Some(ps.dpes[i].id));
      LocalSave(ps, Some(u), ps.dpes[i].id, Some(out.response.saved)).dpes[i].savedByUserIds
        == out.store.dpes[ps.dpes[i].id].savedByUserIds
  {
  }
}

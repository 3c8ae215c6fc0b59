/** The statistics calculator of the colour scraper: `calculate_statistics` in colors.py.
  * Its five values are computed from the frequency table without changing it; counts and
  * quotients are exact (reals) instead of Python floats.
  */
module ColorStatistics {
  import opened Outcomes
  import opened ColorTally

  /** The colour whose probability is reported; matched exactly, case included. */
  const Red: string := "RED"

  /** One `(colour, count)` pair of `color_set.items()`. */
  datatype Entry = Entry(color: string, count: nat)

  /** The exceptions `calculate_statistics` can raise, in the order its dictionary literal
    * would raise them.
    */
  datatype StatsError =
    | EmptyTable        // `max()` of an empty dictionary: ValueError
    | ZeroTotal         // the counts add up to 0: ZeroDivisionError
    | InsufficientData  // `statistics.variance` of a single count: StatisticsError

  /** The dictionary `calculate_statistics` returns. */
  datatype Statistics = Statistics(
    mostWornColor: string,
    probabilityRed: real,
    meanColor: string,
    medianColor: string,
    variance: real)

  /** `color_set.items()`, in dictionary order. */
  function Items(t: Table): (r: seq<Entry>)
    requires t.WellFormed()
    ensures |r| == |t.keys|
    ensures forall i :: 0 <= i < |r| ==> r[i] == Entry(t.keys[i], t.counts[t.keys[i]])
  {
    ItemsOf(t.keys, t.counts)
  }

  function ItemsOf(keys: seq<string>, counts: map<string, nat>): (r: seq<Entry>)
    requires forall k :: k in keys ==> k in counts
    ensures |r| == |keys|
    ensures forall i :: 0 <= i < |r| ==> r[i] == Entry(keys[i], counts[keys[i]])
  {
    if keys == [] then []
    else ItemsOf(keys[..|keys| - 1], counts) + [Entry(keys[|keys| - 1], counts[keys[|keys| - 1]])]
  }

  /** `list(color_set.values())`. */
  function Values(items: seq<Entry>): (r: seq<nat>)
    ensures |r| == |items|
    ensures forall i :: 0 <= i < |r| ==> r[i] == items[i].count
  {
    if items == [] then [] else Values(items[..|items| - 1]) + [items[|items| - 1].count]
  }

  /** `sum(values)` is the table's total. */
  lemma TotalIsSumOfValues(t: Table)
    requires t.WellFormed()
    ensures Total(t) == Sum(Values(Items(t)))
  {
    SumOfItemValues(t.keys, t.counts);
  }

  lemma {:induction false} SumOfItemValues(keys: seq<string>, counts: map<string, nat>)
    requires forall k :: k in keys ==> k in counts
    ensures Sum(Values(ItemsOf(keys, counts))) == SumCounts(keys, counts)
  {
    if keys != [] {
      var init := keys[..|keys| - 1];
      var items := ItemsOf(keys, counts);
      SumOfItemValues(init, counts);
      assert items[..|items| - 1] == ItemsOf(init, counts);
      assert Values(items)[..|items| - 1] == Values(ItemsOf(init, counts));
    }
  }

  // ---------------------------------------------------------------- most worn colour

  /** Position of the entry `max(color_set, key=color_set.get)` picks: `max` replaces its
    * candidate only on a strictly larger count, so it is the first of the largest counts.
    */
  function FirstMaxIndex(items: seq<Entry>): (m: nat)
    requires |items| > 0
    ensures m < |items|
    ensures forall i :: 0 <= i < |items| ==> items[i].count <= items[m].count
    ensures forall i :: 0 <= i < m ==> items[i].count < items[m].count
  {
    if |items| == 1 then 0
    else
      var m := FirstMaxIndex(items[..|items| - 1]);
      if items[|items| - 1].count > items[m].count then |items| - 1 else m
  }

  // ---------------------------------------------------------------- probability of red

  /** `color_set.get('RED', 0) / sum(values) if values else 0`. */
  function ProbabilityRed(t: Table): (r: Result<real, StatsError>)
    requires t.WellFormed()
    ensures r.Err? <==> |t.keys| > 0 && Total(t) == 0
    ensures r.Err? ==> r.error == ZeroTotal
  {
    if |t.keys| == 0 then Ok(0.0)
    else if Total(t) == 0 then Err(ZeroTotal)
    else Ok((if Red in t.counts then t.counts[Red] else 0) as real / Total(t) as real)
  }

  /** A summed count is at most the sum. */
  lemma {:induction false} CountAtMostSum(keys: seq<string>, counts: map<string, nat>, k: string)
    requires forall x :: x in keys ==> x in counts
    requires k in keys
    ensures counts[k] <= SumCounts(keys, counts)
  {
    var init := keys[..|keys| - 1];
    if keys[|keys| - 1] != k {
      assert k in init;
      CountAtMostSum(init, counts, k);
    }
  }

  /** A table read from a document with at least one row has a positive total. */
  lemma TotalPositive(t: Table)
    requires t.WellFormed() && t.Positive() && |t.keys| > 0
    ensures Total(t) > 0
  {
    assert t.keys[0] in t.keys;
    CountAtMostSum(t.keys, t.counts, t.keys[0]);
  }

  lemma Fraction(a: nat, b: nat)
    requires a <= b && b > 0
    ensures 0.0 <= a as real / b as real <= 1.0
    ensures a as real / b as real == 0.0 <==> a == 0
  {
    var q := a as real / b as real;
    assert q * b as real == a as real;
  }

  /** On a table whose counts are all positive, the probability of red is defined, lies
    * between 0 and 1, and is 0 exactly when "RED" is not a key.
    */
  lemma ProbabilityRedBounds(t: Table)
    requires t.WellFormed() && t.Positive()
    ensures ProbabilityRed(t).Ok?
    ensures 0.0 <= ProbabilityRed(t).value <= 1.0
    ensures ProbabilityRed(t).value == 0.0 <==> Red !in t.counts
  {
    if |t.keys| > 0 {
      TotalPositive(t);
      if Red in t.counts {
        CountAtMostSum(t.keys, t.counts, Red);
        Fraction(t.counts[Red], Total(t));
      } else {
        Fraction(0, Total(t));
      }
    }
  }

  // ---------------------------------------------------------------- sorting by count

  /** `sorted(color_set.items(), key=lambda item: item[1])`, built by stable insertion:
    * the entries, rearranged in ascending order of count.
    */
  function SortByCount(items: seq<Entry>): (r: seq<Entry>)
    ensures |r| == |items|
    ensures SortedByCount(r)
    ensures multiset(r) == multiset(items)
  {
    if items == [] then []
    else
      var init, last := items[..|items| - 1], items[|items| - 1];
      assert items == init + [last];
      InsertByCountSorted(SortByCount(init), last);
      InsertByCountPermutes(SortByCount(init), last);
      InsertByCount(SortByCount(init), last)
  }

  /** `e` placed after every entry whose count is at most its own. */
  function InsertByCount(s: seq<Entry>, e: Entry): (r: seq<Entry>)
    ensures |r| == |s| + 1
  {
    if s == [] then [e]
    else if s[|s| - 1].count <= e.count then s + [e]
    else InsertByCount(s[..|s| - 1], e) + [s[|s| - 1]]
  }

  predicate SortedByCount(s: seq<Entry>) {
    forall i, j :: 0 <= i < j < |s| ==> s[i].count <= s[j].count
  }

  /** The entries of `s` with count `c`, in their order in `s`. */
  function WithCount(s: seq<Entry>, c: nat): seq<Entry> {
    if s == [] then []
    else WithCount(s[..|s| - 1], c) + if s[|s| - 1].count == c then [s[|s| - 1]] else []
  }

  lemma WithCountAppend(s: seq<Entry>, e: Entry, c: nat)
    ensures WithCount(s + [e], c) == WithCount(s, c) + if e.count == c then [e] else []
  {
    assert (s + [e])[..|s|] == s;
  }

  lemma {:induction false} WithCountMembers(s: seq<Entry>, c: nat)
    ensures forall e :: e in WithCount(s, c) <==> e in s && e.count == c
  {
    if s != [] {
      var init := s[..|s| - 1];
      WithCountMembers(init, c);
      assert s == init + [s[|s| - 1]];
    }
  }

  /** Inserting adds exactly `e`. */
  lemma {:induction false} InsertByCountPermutes(s: seq<Entry>, e: Entry)
    ensures multiset(InsertByCount(s, e)) == multiset(s) + multiset{e}
  {
    if s != [] && s[|s| - 1].count > e.count {
      var init := s[..|s| - 1];
      assert s == init + [s[|s| - 1]];
      InsertByCountPermutes(init, e);
    }
  }

  /** Inserting into a sorted sequence keeps it sorted. */
  lemma {:induction false} InsertByCountSorted(s: seq<Entry>, e: Entry)
    requires SortedByCount(s)
    ensures SortedByCount(InsertByCount(s, e))
  {
    if s != [] && s[|s| - 1].count > e.count {
      var init := s[..|s| - 1];
      var last := s[|s| - 1];
      assert s == init + [last];
      InsertByCountSorted(init, e);
      InsertByCountPermutes(init, e);
      var ins := InsertByCount(init, e);
      forall i | 0 <= i < |ins| ensures ins[i].count <= last.count {
        var x := ins[i];
        assert x in multiset(ins);
        if x != e {
          assert x in multiset(init);
          assert x in init;
        }
      }
      assert SortedByCount(ins + [last]);
    }
  }

  /** Inserting `e` puts it after the entries of its own count already there. */
  lemma {:induction false} InsertByCountStable(s: seq<Entry>, e: Entry, c: nat)
    ensures WithCount(InsertByCount(s, e), c) == WithCount(s, c) + if e.count == c then [e] else []
  {
    if s == [] {
    } else if s[|s| - 1].count <= e.count {
      WithCountAppend(s, e, c);
    } else {
      var init := s[..|s| - 1];
      var last := s[|s| - 1];
      assert s == init + [last];
      InsertByCountStable(init, e, c);
      WithCountAppend(InsertByCount(init, e), last, c);
      WithCountAppend(init, last, c);
    }
  }

  /** `sorted` by count is a stable sort: besides being ascending by count and a
    * permutation of the entries, the result keeps the entries of each count in their
    * dictionary order.
    */
  lemma {:induction false} SortByCountIsStableSort(items: seq<Entry>)
    ensures SortedByCount(SortByCount(items))
    ensures multiset(SortByCount(items)) == multiset(items)
    ensures forall c :: WithCount(SortByCount(items), c) == WithCount(items, c)
  {
    if items != [] {
      var init := items[..|items| - 1];
      var last := items[|items| - 1];
      assert items == init + [last];
      SortByCountIsStableSort(init);
      forall c ensures WithCount(SortByCount(items), c) == WithCount(items, c) {
        InsertByCountStable(SortByCount(init), last, c);
        WithCountAppend(init, last, c);
      }
    }
  }

  lemma LastHasItsCount(s: seq<Entry>)
    requires s != []
    ensures s[|s| - 1] in WithCount(s, s[|s| - 1].count)
  {
  }

  /** An entry of `b` of the count of `a`'s last entry is no later than `a`'s last entry. */
  lemma LastCountAtMost(a: seq<Entry>, b: seq<Entry>)
    requires a != [] && b != [] && SortedByCount(a)
    requires forall c :: WithCount(a, c) == WithCount(b, c)
    ensures b[|b| - 1].count <= a[|a| - 1].count
  {
    var lb := b[|b| - 1];
    LastHasItsCount(b);
    WithCountMembers(a, lb.count);
    assert lb in a;
  }

  lemma NonEmptyAgree(a: seq<Entry>, b: seq<Entry>)
    requires a != []
    requires forall c :: WithCount(a, c) == WithCount(b, c)
    ensures b != []
  {
    LastHasItsCount(a);
  }

  lemma DropLastAgree(a: seq<Entry>, la: Entry, b: seq<Entry>, lb: Entry, c: nat)
    requires la.count == lb.count
    requires WithCount(a + [la], c) == WithCount(b + [lb], c)
    ensures WithCount(a, c) == WithCount(b, c)
  {
    WithCountAppend(a, la, c);
    WithCountAppend(b, lb, c);
    if c == la.count {
      var wa, wb := WithCount(a, c), WithCount(b, c);
      assert wa == (wa + [la])[..|wa|] && wb == (wb + [lb])[..|wb|];
    }
  }

  lemma LastAgree(a: seq<Entry>, la: Entry, b: seq<Entry>, lb: Entry)
    requires la.count == lb.count
    requires WithCount(a + [la], la.count) == WithCount(b + [lb], la.count)
    ensures la == lb
  {
    WithCountAppend(a, la, la.count);
    WithCountAppend(b, lb, la.count);
    var wa, wb := WithCount(a, la.count), WithCount(b, la.count);
    assert la == (wa + [la])[|wa|] && lb == (wb + [lb])[|wb|];
  }

  /** Two sequences ascending by count that agree, count by count, on their entries and
    * the order of those entries are equal.
    */
  lemma {:induction false} SortedAgreeingEqual(a: seq<Entry>, b: seq<Entry>)
    requires SortedByCount(a) && SortedByCount(b)
    requires forall c :: WithCount(a, c) == WithCount(b, c)
    ensures a == b
  {
    if a != [] {
      NonEmptyAgree(a, b);
      var a', la := a[..|a| - 1], a[|a| - 1];
      var b', lb := b[..|b| - 1], b[|b| - 1];
      assert a == a' + [la] && b == b' + [lb];
      LastCountAtMost(a, b);
      LastCountAtMost(b, a);
      forall c ensures WithCount(a', c) == WithCount(b', c) {
        assert WithCount(a' + [la], c) == WithCount(b' + [lb], c);
        DropLastAgree(a', la, b', lb, c);
      }
      assert WithCount(a' + [la], la.count) == WithCount(b' + [lb], la.count);
      LastAgree(a', la, b', lb);
      SortedAgreeingEqual(a', b');
    } else if b != [] {
      NonEmptyAgree(b, a);
    }
  }

  /** `r` is ascending by count and keeps, for every count, the entries of `items` with that
    * count in their order in `items`: what a stable sort by count returns.
    */
  ghost predicate IsStableSortOf(r: seq<Entry>, items: seq<Entry>) {
    SortedByCount(r) && forall c :: WithCount(r, c) == WithCount(items, c)
  }

  /** Python's `sorted` is guaranteed stable, and a stable ascending sort has only one
    * possible result: whatever algorithm `sorted` runs, it returns `SortByCount(items)`.
    */
  lemma StableSortIsUnique(items: seq<Entry>, r: seq<Entry>)
    requires IsStableSortOf(r, items)
    ensures r == SortByCount(items)
  {
    SortByCountIsStableSort(items);
    SortedAgreeingEqual(r, SortByCount(items));
  }

  // ---------------------------------------------------------------- "mean" and "median" colour

  /** `len(values) // 2`: the upper of the middle positions of `n` entries (the middle one
    * when `n` is odd). It picks an entry by position, not an arithmetic mean.
    */
  function MeanIndex(n: nat): (i: nat)
    requires n >= 1
    ensures i < n && n - 1 - i <= i <= n - i
  {
    n / 2
  }

  /** `n // 2` when `n` is odd, else `n // 2 - 1`: the lower of the middle positions. It is
    * the mean position when `n` is odd and the one before it when `n` is even.
    */
  function MedianIndex(n: nat): (i: nat)
    requires n >= 1
    ensures i < n && i <= n - 1 - i <= i + 1
    ensures i == if n % 2 == 1 then MeanIndex(n) else MeanIndex(n) - 1
  {
    if n % 2 != 0 then n / 2 else n / 2 - 1
  }

  // ---------------------------------------------------------------- variance of the counts

  function Sum(v: seq<nat>): nat {
    if v == [] then 0 else Sum(v[..|v| - 1]) + v[|v| - 1]
  }

  function Square(x: int): (r: nat)
    ensures r > 0 <==> x != 0
  {
    x * x
  }

  /** The sum of `(n * x - total)²` over the values `x`: with `total` the sum of `n`
    * values, this is `n²` times their squared deviations from the mean `total / n`,
    * kept in integers so that it is exact.
    */
  function ScaledSquaredDeviations(v: seq<nat>, n: nat, total: nat): nat {
    if v == [] then 0
    else ScaledSquaredDeviations(v[..|v| - 1], n, total) + Square(n * v[|v| - 1] - total)
  }

  /** `statistics.variance(values)`: the sample variance Σ(x − x̄)² / (n − 1) with
    * x̄ = Σx / n, written as Σ(n·x − Σx)² / (n² · (n − 1)).
    */
  function Variance(v: seq<nat>): (r: real)
    requires |v| >= 2
    ensures r >= 0.0
  {
    var n := |v|;
    var q, d := ScaledSquaredDeviations(v, n, Sum(v)), Scale(n);
    NonNegativeQuotient(q, d);
    q as real / d as real
  }

  /** n² · (n − 1): n² undoes the scaling of the deviations, n − 1 is Bessel's divisor. */
  function Scale(n: nat): (d: nat)
    requires n >= 2
    ensures d > 0
  {
    PositiveProduct(n * n, n - 1);
    n * n * (n - 1)
  }

  lemma PositiveProduct(a: nat, b: nat)
    requires a > 0 && b > 0
    ensures a * b > 0
  {
  }

  lemma NonNegativeQuotient(a: nat, b: nat)
    requires b > 0
    ensures a as real / b as real >= 0.0
  {
    assert (a as real / b as real) * b as real == a as real;
  }

  predicate AllEqual(v: seq<nat>) {
    forall i, j :: 0 <= i < |v| && 0 <= j < |v| ==> v[i] == v[j]
  }

  lemma {:induction false} SumOfEqual(v: seq<nat>, c: nat)
    requires forall i :: 0 <= i < |v| ==> v[i] == c
    ensures Sum(v) == |v| * c
  {
    if v != [] {
      SumOfEqual(v[..|v| - 1], c);
    }
  }

  lemma {:induction false} NoDeviationFromEqual(v: seq<nat>, n: nat, c: nat)
    requires forall i :: 0 <= i < |v| ==> v[i] == c
    ensures ScaledSquaredDeviations(v, n, n * c) == 0
  {
    if v != [] {
      NoDeviationFromEqual(v[..|v| - 1], n, c);
    }
  }

  lemma {:induction false} NoDeviationMeansEqual(v: seq<nat>, n: nat, total: nat)
    requires ScaledSquaredDeviations(v, n, total) == 0
    ensures forall i :: 0 <= i < |v| ==> n * v[i] == total
  {
    if v != [] {
      var init := v[..|v| - 1];
      NoDeviationMeansEqual(init, n, total);
      forall i | 0 <= i < |v| ensures n * v[i] == total {
        if i < |init| { assert v[i] == init[i]; }
      }
    }
  }

  lemma CancelFactor(n: int, x: int, y: int)
    requires n > 0 && n * x == n * y
    ensures x == y
  {
  }

  /** The variance of the counts is 0 exactly when all counts are equal. */
  lemma VarianceZeroIffEqual(v: seq<nat>)
    requires |v| >= 2
    ensures Variance(v) == 0.0 <==> AllEqual(v)
  {
    var n := |v|;
    var d := Scale(n);
    var q := ScaledSquaredDeviations(v, n, Sum(v));
    assert Variance(v) * d as real == q as real;
    if AllEqual(v) {
      SumOfEqual(v, v[0]);
      NoDeviationFromEqual(v, n, v[0]);
    }
    if Variance(v) == 0.0 {
      NoDeviationMeansEqual(v, n, Sum(v));
      forall i, j | 0 <= i < n && 0 <= j < n ensures v[i] == v[j] {
        CancelFactor(n, v[i], v[j]);
      }
    }
  }

  /** One term of the scaled sum is n² times the squared deviation from the mean: with
    * x̄ = total / n, (n·x − total)² / n² = (x − x̄)².
    */
  lemma ScaledDeviation(x: nat, n: nat, total: nat)
    requires n > 0
    ensures var d := x as real - total as real / n as real;
      d * d == Square(n * x - total) as real / (n * n) as real
  {
    var m := total as real / n as real;
    assert m * n as real == total as real;
    var d := x as real - m;
    var f := d * n as real;
    assert f == (n * x - total) as real;
    assert f * f == d * d * (n as real * n as real);
    assert (n * n) as real == n as real * n as real;
  }

  // ---------------------------------------------------------------- the five statistics

  /** `calculate_statistics(color_set)`: fails on an empty table, on a zero total and on a
    * table with a single colour, and otherwise returns the five statistics.
    */
  function CalculateStatistics(t: Table): (r: Result<Statistics, StatsError>)
    requires t.WellFormed()
    ensures r.Ok? <==> |t.keys| >= 2 && Total(t) > 0
    ensures |t.keys| == 0 ==> r == Err(EmptyTable)
    ensures |t.keys| >= 1 && Total(t) == 0 ==> r == Err(ZeroTotal)
    ensures |t.keys| == 1 && Total(t) > 0 ==> r == Err(InsufficientData)
  {
    var items := Items(t);
    var n := |items|;
    if n == 0 then Err(EmptyTable)
    else if Total(t) == 0 then Err(ZeroTotal)
    else if n == 1 then Err(InsufficientData)
    else
      var sorted := SortByCount(items);
      Ok(Statistics(
        mostWornColor := items[FirstMaxIndex(items)].color,
        probabilityRed := ProbabilityRed(t).value,
        meanColor := sorted[MeanIndex(n)].color,
        medianColor := sorted[MedianIndex(n)].color,
        variance := Variance(Values(items))))
  }

  /** The fields of the statistics, when they exist. */
  lemma StatisticsFields(t: Table)
    requires t.WellFormed()
    requires |t.keys| >= 2 && Total(t) > 0
    ensures var items, st := Items(t), CalculateStatistics(t).value;
      && |SortByCount(items)| == |items|
      && st.mostWornColor == items[FirstMaxIndex(items)].color
      && st.probabilityRed == ProbabilityRed(t).value
      && st.meanColor == SortByCount(items)[MeanIndex(|items|)].color
      && st.medianColor == SortByCount(items)[MedianIndex(|items|)].color
      && st.variance == Variance(Values(items))
  {
  }

  /** The most worn colour is a key with the largest count, and no key with that count
    * comes before it in the dictionary's order.
    */
  lemma MostWornColor(t: Table)
    requires t.WellFormed()
    requires |t.keys| >= 2 && Total(t) > 0
    ensures var most := CalculateStatistics(t).value.mostWornColor;
      && most in t.counts
      && (forall k :: k in t.counts ==> t.counts[k] <= t.counts[most])
      && (forall i :: 0 <= i < |t.keys| && t.counts[t.keys[i]] == t.counts[most] ==> most in t.keys[..i + 1])
  {
    StatisticsFields(t);
    var items := Items(t);
    var m := FirstMaxIndex(items);
    var most := items[m].color;
    assert most == t.keys[m];
    forall k | k in t.counts ensures t.counts[k] <= t.counts[most] {
      var i :| 0 <= i < |t.keys| && t.keys[i] == k;
      assert items[i].count <= items[m].count;
    }
    forall i | 0 <= i < |t.keys| && t.counts[t.keys[i]] == t.counts[most] ensures most in t.keys[..i + 1] {
      assert items[i].count == items[m].count;
      assert t.keys[..i + 1][m] == most;
    }
  }

  /** Whenever the statistics exist, the probability of red lies between 0 and 1 and is 0
    * exactly when "RED" is not a key or has count 0.
    */
  lemma ProbabilityOfRed(t: Table)
    requires t.WellFormed()
    requires |t.keys| >= 2 && Total(t) > 0
    ensures var p := CalculateStatistics(t).value.probabilityRed;
      0.0 <= p <= 1.0 && (p == 0.0 <==> Red !in t.counts || t.counts[Red] == 0)
  {
    StatisticsFields(t);
    if Red in t.counts {
      CountAtMostSum(t.keys, t.counts, Red);
      Fraction(t.counts[Red], Total(t));
    } else {
      Fraction(0, Total(t));
    }
  }

  /** The "mean" and "median" colours are the entries at positions `n // 2` and (for even
    * `n`) `n // 2 - 1` of any stable ascending sort of the items, which is what Python's
    * `sorted` returns; they are keys of the table, the "median" colour's count is at most
    * the "mean" colour's, and they are the same colour when the number of colours is odd.
    */
  lemma MiddleColors(t: Table, sorted: seq<Entry>)
    requires t.WellFormed()
    requires |t.keys| >= 2 && Total(t) > 0
    requires IsStableSortOf(sorted, Items(t))
    ensures var st, n := CalculateStatistics(t).value, |t.keys|;
      && |sorted| == n
      && st.meanColor == sorted[n / 2].color
      && st.medianColor == (if n % 2 == 1 then sorted[n / 2] else sorted[n / 2 - 1]).color
      && st.meanColor in t.counts && st.medianColor in t.counts
      && t.counts[st.medianColor] <= t.counts[st.meanColor]
      && (n % 2 == 1 ==> st.medianColor == st.meanColor)
  {
    StatisticsFields(t);
    var items := Items(t);
    StableSortIsUnique(items, sorted);
    var n := |items|;
    assert MeanIndex(n) == n / 2;
    assert MedianIndex(n) == if n % 2 == 1 then n / 2 else n / 2 - 1;
    SortedEntryOfTable(t, MedianIndex(n));
    SortedEntryOfTable(t, MeanIndex(n));
    MiddleCounts(items);
  }

  lemma MiddleCounts(items: seq<Entry>)
    requires |items| >= 1
    ensures SortByCount(items)[MedianIndex(|items|)].count <= SortByCount(items)[MeanIndex(|items|)].count
  {
    SortByCountIsStableSort(items);
  }

  /** An entry of the sorted items is a key of the table with its count. */
  lemma SortedEntryOfTable(t: Table, i: nat)
    requires t.WellFormed()
    requires i < |t.keys|
    ensures var e := SortByCount(Items(t))[i];
      e.color in t.counts && e.count == t.counts[e.color]
  {
    var items := Items(t);
    SortByCountIsStableSort(items);
    var e := SortByCount(items)[i];
    assert e in multiset(SortByCount(items));
    assert e in items;
  }

  /** The variance is 0 exactly when every colour has the same count. */
  lemma VarianceOfCounts(t: Table)
    requires t.WellFormed()
    requires |t.keys| >= 2 && Total(t) > 0
    ensures CalculateStatistics(t).value.variance >= 0.0
    ensures CalculateStatistics(t).value.variance == 0.0 <==>
      forall k, l :: k in t.counts && l in t.counts ==> t.counts[k] == t.counts[l]
  {
    StatisticsFields(t);
    VarianceZeroIffEqual(Values(Items(t)));
    EqualValuesEqualCounts(t);
  }

  /** The counts listed by `values()` are all equal exactly when the table's counts are. */
  lemma EqualValuesEqualCounts(t: Table)
    requires t.WellFormed()
    ensures AllEqual(Values(Items(t))) <==>
      forall k, l :: k in t.counts && l in t.counts ==> t.counts[k] == t.counts[l]
  {
    var v := Values(Items(t));
    if AllEqual(v) {
      forall k, l | k in t.counts && l in t.counts ensures t.counts[k] == t.counts[l] {
        var i :| 0 <= i < |t.keys| && t.keys[i] == k;
        var j :| 0 <= j < |t.keys| && t.keys[j] == l;
        assert v[i] == v[j];
      }
    } else {
      var i, j :| 0 <= i < |v| && 0 <= j < |v| && v[i] != v[j];
      assert t.keys[i] in t.counts && t.keys[j] in t.counts;
    }
  }

  /** On a table read from a document, the statistics exist exactly when at least two
    * distinct colours were read: no rows fail in `max`, a single colour in `variance`.
    */
  lemma StatisticsOfParsedTable(rows: seq<Row>, t: Table)
    requires Tally(rows) == Ok(t)
    ensures t.WellFormed()
    ensures CalculateStatistics(t).Ok? <==> |t.keys| >= 2
    ensures rows == [] <==> CalculateStatistics(t) == Err(EmptyTable)
    ensures |t.keys| == 1 ==> CalculateStatistics(t) == Err(InsufficientData)
  {
    ParseHtmlTable(rows, t);
    if |t.keys| > 0 {
      TotalPositive(t);
    }
    if rows != [] {
      var c := Colors(rows)[0];
      assert c in Colors(rows);
      assert c in t.counts;
      assert c in t.keys;
    }
  }
}

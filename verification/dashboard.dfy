/**
 The per-school aggregation of the tree-request dashboard: total and recent
 sapling counts per school, the fortnightly contest windows, and the
 bucketing of orders into those windows.
 */
module Dashboard {
  import opened Wrappers
  import opened Seqs

  /** One row of the `tree_order` table. */
  datatype Order = Order(school: int, submitTime: int, number: int)

  /** A contest period; an order belongs to it when its submit time lies between the ends, both included. */
  datatype Window = Window(start: int, end: int)

  /** The row filters the dashboard applies to the order table. */
  datatype Criterion =
    | OfSchool(school: int)
    | SubmittedSince(cutoff: int)
    | SubmittedBefore(cutoff: int)
    | During(window: Window)
    | Both(first: Criterion, second: Criterion)

  /** `list.index` failing on a school id that has no row in the contest table. */
  datatype ContestError = SchoolNotListed(school: int)

  /** The dashboard's first sheet: one row per school, with its total and weekly sapling counts. */
  datatype CountTable = CountTable(schools: seq<int>, saplings: seq<int>, weekly: seq<int>)

  const SecondsPerDay: int := 86400
  const WeeklyDays: int := 7
  /** Start of the first fortnightly contest, in Unix seconds. */
  const ContestStart: int := 1642957200
  /** Length of one contest: fourteen days in seconds. */
  const ContestLength: int := 1209600

  predicate Meets(o: Order, c: Criterion) {
    match c
    case OfSchool(id) => o.school == id
    case SubmittedSince(t) => o.submitTime >= t
    case SubmittedBefore(t) => o.submitTime < t
    case During(w) => w.start <= o.submitTime <= w.end
    case Both(a, b) => Meets(o, a) && Meets(o, b)
  }

  /** Boolean-mask row selection: the orders meeting `c`, in table order. */
  function Select(os: seq<Order>, c: Criterion): (r: seq<Order>)
    ensures |r| <= |os|
  {
    if |os| == 0 then []
    else
      var init := os[..|os| - 1];
      if Meets(os[|os| - 1], c) then Select(init, c) + [os[|os| - 1]] else Select(init, c)
  }

  /** `sum(rows["number"])`. */
  function SumNumbers(os: seq<Order>): int
  {
    if |os| == 0 then 0 else SumNumbers(os[..|os| - 1]) + os[|os| - 1].number
  }

  predicate NonNegative(os: seq<Order>) {
    forall j :: 0 <= j < |os| ==> os[j].number >= 0
  }

  /**
   Selection keeps exactly the orders meeting the criterion, each as often as
   the table holds it, and drops every other order entirely.
   */
  lemma {:induction false} SelectSound(os: seq<Order>, c: Criterion)
    ensures forall o :: o in Select(os, c) <==> o in os && Meets(o, c)
    ensures multiset(Select(os, c)) <= multiset(os)
    ensures forall o :: multiset(Select(os, c))[o] == (if Meets(o, c) then multiset(os)[o] else 0)
  {
    if |os| > 0 {
      var x := os[|os| - 1];
      var init := os[..|os| - 1];
      assert os == init + [x];
      assert multiset(os) == multiset(init) + multiset{x};
      SelectSound(init, c);
      if Meets(x, c) {
        assert multiset(Select(os, c)) == multiset(Select(init, c)) + multiset{x};
      } else {
        assert Select(os, c) == Select(init, c);
      }
    }
  }

  lemma {:induction false} SelectNone(os: seq<Order>, c: Criterion)
    requires forall j :: 0 <= j < |os| ==> !Meets(os[j], c)
    ensures Select(os, c) == []
  {
    if |os| > 0 {
      SelectNone(os[..|os| - 1], c);
    }
  }

  lemma SelectAppend(os: seq<Order>, o: Order, c: Criterion)
    ensures Meets(o, c) ==> Select(os + [o], c) == Select(os, c) + [o]
    ensures !Meets(o, c) ==> Select(os + [o], c) == Select(os, c)
  {
    assert (os + [o])[..|os|] == os;
  }

  lemma SumNumbersAppend(os: seq<Order>, o: Order)
    ensures SumNumbers(os + [o]) == SumNumbers(os) + o.number
  {
    assert (os + [o])[..|os|] == os;
  }

  lemma {:induction false} SumNumbersNonNegative(os: seq<Order>)
    requires NonNegative(os)
    ensures SumNumbers(os) >= 0
  {
    if |os| > 0 {
      SumNumbersNonNegative(os[..|os| - 1]);
    }
  }

  lemma SelectKeepsNonNegative(os: seq<Order>, c: Criterion)
    requires NonNegative(os)
    ensures NonNegative(Select(os, c))
  {
    var r := Select(os, c);
    SelectSound(os, c);
    forall j | 0 <= j < |r| ensures r[j].number >= 0 {
      assert r[j] in os;
    }
  }

  /** Every order is submitted either at or after a cutoff or before it, so the two sums add up to the whole. */
  lemma {:induction false} SumNumbersSplits(os: seq<Order>, cutoff: int)
    ensures SumNumbers(os)
         == SumNumbers(Select(os, SubmittedSince(cutoff))) + SumNumbers(Select(os, SubmittedBefore(cutoff)))
  {
    if |os| > 0 {
      var init := os[..|os| - 1];
      var o := os[|os| - 1];
      assert os == init + [o];
      SumNumbersSplits(init, cutoff);
      SelectAppend(init, o, SubmittedSince(cutoff));
      SelectAppend(init, o, SubmittedBefore(cutoff));
      if o.submitTime >= cutoff {
        SumNumbersAppend(Select(init, SubmittedSince(cutoff)), o);
      } else {
        SumNumbersAppend(Select(init, SubmittedBefore(cutoff)), o);
      }
    }
  }

  // ---------------------------------------------------------------- schools

  /** Adds `x` to a strictly increasing list of ids, keeping it strictly increasing. */
  function InsertSorted(xs: seq<int>, x: int): (r: seq<int>)
    requires StrictlyIncreasing(xs)
    ensures StrictlyIncreasing(r)
    ensures forall y :: y in r <==> y == x || y in xs
  {
    if |xs| == 0 then [x]
    else if x < xs[0] then [x] + xs
    else if x == xs[0] then xs
    else
      var rest := InsertSorted(xs[1..], x);
      assert xs == [xs[0]] + xs[1..];
      assert forall y :: y in rest ==> xs[0] < y;
      PrependIncreasing(xs[0], rest);
      [xs[0]] + rest
  }

  lemma PrependIncreasing(x: int, xs: seq<int>)
    requires StrictlyIncreasing(xs)
    requires forall y :: y in xs ==> x < y
    ensures StrictlyIncreasing([x] + xs)
    ensures forall y :: y in [x] + xs <==> y == x || y in xs
  {
    var r := [x] + xs;
    forall i, j | 0 <= i < j < |r| ensures r[i] < r[j] {
      assert r[j] == xs[j - 1];
      if i > 0 {
        assert r[i] == xs[i - 1];
      } else {
        assert xs[j - 1] in xs;
      }
    }
  }

  /** `np.unique(orders["schoolid"])`: the distinct school ids of the orders, in increasing order. */
  function SchoolCodes(orders: seq<Order>): (ids: seq<int>)
    ensures StrictlyIncreasing(ids)
    ensures forall id :: id in ids <==> exists j :: 0 <= j < |orders| && orders[j].school == id
  {
    if |orders| == 0 then []
    else
      var init := orders[..|orders| - 1];
      assert forall j :: 0 <= j < |init| ==> init[j] == orders[j];
      InsertSorted(SchoolCodes(init), orders[|orders| - 1].school)
  }

  lemma StrictlyIncreasingIsDistinct(xs: seq<int>)
    requires StrictlyIncreasing(xs)
    ensures Distinct(xs)
  {
  }

  // ---------------------------------------------------------- sapling counts

  /**
   The mask applied by multiplication rather than by selection: each order's
   `number` where it meets `c`, and 0 where it does not.
   */
  function MaskedNumbers(os: seq<Order>, c: Criterion): (m: seq<int>)
    ensures |m| == |os|
    ensures forall j {:trigger m[j]} :: 0 <= j < |os| ==> m[j] == (if Meets(os[j], c) then os[j].number else 0)
  {
    seq(|os|, j requires 0 <= j < |os| => if Meets(os[j], c) then os[j].number else 0)
  }

  /** Summing the selected rows is summing the masked column. */
  lemma {:induction false} SelectSumIsMaskedSum(os: seq<Order>, c: Criterion)
    ensures SumNumbers(Select(os, c)) == Sum(MaskedNumbers(os, c))
  {
    if |os| > 0 {
      var o := os[|os| - 1];
      var init := os[..|os| - 1];
      var m := MaskedNumbers(os, c);
      assert os == init + [o];
      assert m[..|os| - 1] == MaskedNumbers(init, c);
      SelectSumIsMaskedSum(init, c);
      SelectAppend(init, o, c);
      if Meets(o, c) {
        SumNumbersAppend(Select(init, c), o);
      }
    }
  }

  /** Selecting by one mask and then by another is selecting by both at once. */
  lemma {:induction false} SelectTwice(os: seq<Order>, a: Criterion, b: Criterion)
    ensures Select(Select(os, a), b) == Select(os, Both(a, b))
  {
    if |os| > 0 {
      var o := os[|os| - 1];
      var init := os[..|os| - 1];
      assert os == init + [o];
      SelectTwice(init, a, b);
      SelectAppend(init, o, a);
      SelectAppend(init, o, Both(a, b));
      if Meets(o, a) {
        SelectAppend(Select(init, a), o, b);
      }
    }
  }

  lemma SchoolSumsAreMasked(orders: seq<Order>, codes: seq<int>)
    ensures forall k :: 0 <= k < |codes| ==>
      SumNumbers(Select(orders, OfSchool(codes[k]))) == Sum(MaskedNumbers(orders, OfSchool(codes[k])))
  {
    forall k | 0 <= k < |codes|
      ensures SumNumbers(Select(orders, OfSchool(codes[k]))) == Sum(MaskedNumbers(orders, OfSchool(codes[k])))
    {
      SelectSumIsMaskedSum(orders, OfSchool(codes[k]));
    }
  }

  lemma RecentSumsAreMasked(orders: seq<Order>, codes: seq<int>, cutoff: int)
    ensures forall k :: 0 <= k < |codes| ==>
      SumNumbers(Select(Select(orders, OfSchool(codes[k])), SubmittedSince(cutoff)))
      == Sum(MaskedNumbers(orders, Both(OfSchool(codes[k]), SubmittedSince(cutoff))))
  {
    forall k | 0 <= k < |codes|
      ensures SumNumbers(Select(Select(orders, OfSchool(codes[k])), SubmittedSince(cutoff)))
           == Sum(MaskedNumbers(orders, Both(OfSchool(codes[k]), SubmittedSince(cutoff))))
    {
      SelectTwice(orders, OfSchool(codes[k]), SubmittedSince(cutoff));
      SelectSumIsMaskedSum(orders, Both(OfSchool(codes[k]), SubmittedSince(cutoff)));
    }
  }

  /**
   `get_sapling_counts`: for each listed school, the sum of `number` over that
   school's orders, which is the sum of the `number` column masked to the school.
   */
  function SaplingCounts(orders: seq<Order>, codes: seq<int>): (counts: seq<int>)
    ensures |counts| == |codes|
    ensures forall k :: 0 <= k < |codes| ==> counts[k] == SumNumbers(Select(orders, OfSchool(codes[k])))
    ensures forall k :: 0 <= k < |codes| ==> counts[k] == Sum(MaskedNumbers(orders, OfSchool(codes[k])))
  {
    SchoolSumsAreMasked(orders, codes);
    seq(|codes|, k requires 0 <= k < |codes| => SumNumbers(Select(orders, OfSchool(codes[k]))))
  }

  /** A listed school without any order gets a count of 0. */
  lemma SchoolWithoutOrdersCountsZero(orders: seq<Order>, codes: seq<int>, k: nat)
    requires k < |codes|
    requires forall j :: 0 <= j < |orders| ==> orders[j].school != codes[k]
    ensures SaplingCounts(orders, codes)[k] == 0
  {
    SelectNone(orders, OfSchool(codes[k]));
  }

  /** The recent counts' cutoff: `days` whole days before `now`. */
  function RecentCutoff(now: int, days: int): int
  {
    now - SecondsPerDay * days
  }

  /**
   `get_recent_sapling_counts`: for each listed school, the sum of `number`
   over that school's orders submitted at or after the cutoff, which is the
   sum of the `number` column masked to the school and to the cutoff.
   */
  function RecentSaplingCounts(orders: seq<Order>, codes: seq<int>, now: int, days: int): (counts: seq<int>)
    ensures |counts| == |codes|
    ensures forall k :: 0 <= k < |codes| ==>
      counts[k] == SumNumbers(Select(Select(orders, OfSchool(codes[k])), SubmittedSince(RecentCutoff(now, days))))
    ensures forall k :: 0 <= k < |codes| ==>
      counts[k] == Sum(MaskedNumbers(orders, Both(OfSchool(codes[k]), SubmittedSince(RecentCutoff(now, days)))))
  {
    RecentSumsAreMasked(orders, codes, RecentCutoff(now, days));
    seq(|codes|, k requires 0 <= k < |codes| =>
      SumNumbers(Select(Select(orders, OfSchool(codes[k])), SubmittedSince(RecentCutoff(now, days)))))
  }

  /**
   Each school's total is its recent count plus the sum over its orders from
   before the cutoff; with non-negative order sizes the recent count never
   exceeds the total.
   */
  lemma RecentWithinTotal(orders: seq<Order>, codes: seq<int>, now: int, days: int)
    ensures forall k :: 0 <= k < |codes| ==>
      SaplingCounts(orders, codes)[k]
      == RecentSaplingCounts(orders, codes, now, days)[k]
       + SumNumbers(Select(Select(orders, OfSchool(codes[k])), SubmittedBefore(RecentCutoff(now, days))))
    ensures NonNegative(orders) ==>
      forall k :: 0 <= k < |codes| ==> RecentSaplingCounts(orders, codes, now, days)[k] <= SaplingCounts(orders, codes)[k]
  {
    var cutoff := RecentCutoff(now, days);
    forall k | 0 <= k < |codes|
      ensures SaplingCounts(orders, codes)[k]
           == RecentSaplingCounts(orders, codes, now, days)[k]
            + SumNumbers(Select(Select(orders, OfSchool(codes[k])), SubmittedBefore(cutoff)))
      ensures NonNegative(orders) ==> RecentSaplingCounts(orders, codes, now, days)[k] <= SaplingCounts(orders, codes)[k]
    {
      var mine := Select(orders, OfSchool(codes[k]));
      SumNumbersSplits(mine, cutoff);
      if NonNegative(orders) {
        SelectKeepsNonNegative(orders, OfSchool(codes[k]));
        SelectKeepsNonNegative(mine, SubmittedBefore(cutoff));
        SumNumbersNonNegative(Select(mine, SubmittedBefore(cutoff)));
      }
    }
  }

  lemma {:induction false} SumOfZeros(xs: seq<int>)
    requires forall k :: 0 <= k < |xs| ==> xs[k] == 0
    ensures Sum(xs) == 0
  {
    if |xs| > 0 {
      SumOfZeros(xs[..|xs| - 1]);
    }
  }

  /** The counts' sum splits into the sum for all but the last school plus the last school's count. */
  lemma SaplingCountsLast(orders: seq<Order>, codes: seq<int>)
    requires |codes| > 0
    ensures Sum(SaplingCounts(orders, codes))
         == Sum(SaplingCounts(orders, codes[..|codes| - 1])) + SumNumbers(Select(orders, OfSchool(codes[|codes| - 1])))
  {
    assert SaplingCounts(orders, codes)[..|codes| - 1] == SaplingCounts(orders, codes[..|codes| - 1]);
  }

  /** One more order adds its size to the sum of one school exactly when it is that school's. */
  lemma OneSchoolStep(orders: seq<Order>, o: Order, c: int)
    ensures SumNumbers(Select(orders + [o], OfSchool(c)))
         == SumNumbers(Select(orders, OfSchool(c))) + (if o.school == c then o.number else 0)
  {
    SelectAppend(orders, o, OfSchool(c));
    if o.school == c {
      SumNumbersAppend(Select(orders, OfSchool(c)), o);
    }
  }

  /** Adding one order to the table adds its size to exactly the count of its school, if listed. */
  lemma {:induction false} SaplingCountsStep(orders: seq<Order>, o: Order, codes: seq<int>)
    requires Distinct(codes)
    ensures Sum(SaplingCounts(orders + [o], codes))
         == Sum(SaplingCounts(orders, codes)) + (if o.school in codes then o.number else 0)
  {
    if |codes| > 0 {
      var init := codes[..|codes| - 1];
      DistinctSplit(codes, o.school);
      SaplingCountsLast(orders + [o], codes);
      SaplingCountsLast(orders, codes);
      OneSchoolStep(orders, o, codes[|codes| - 1]);
      SaplingCountsStep(orders, o, init);
    }
  }

  /**
   When every school of the orders is listed exactly once, the per-school
   totals add up to the total of all orders: no order is lost or counted twice.
   */
  lemma {:induction false} SaplingCountsConserve(orders: seq<Order>, codes: seq<int>)
    requires Distinct(codes)
    requires forall j :: 0 <= j < |orders| ==> orders[j].school in codes
    ensures Sum(SaplingCounts(orders, codes)) == SumNumbers(orders)
  {
    if |orders| == 0 {
      SumOfZeros(SaplingCounts(orders, codes));
    } else {
      var init := orders[..|orders| - 1];
      var o := orders[|orders| - 1];
      assert orders == init + [o];
      SaplingCountsConserve(init, codes);
      SaplingCountsStep(init, o, codes);
    }
  }

  /**
   `update_data`: the school list is `np.unique` of the orders, row `k` holds
   school `k`'s total and weekly counts, the totals account for every order,
   and with non-negative order sizes each school's weekly count is at most its
   total.
   */
  function UpdateData(orders: seq<Order>, now: int): (table: CountTable)
    ensures |table.saplings| == |table.schools| && |table.weekly| == |table.schools|
    ensures StrictlyIncreasing(table.schools)
    ensures forall id :: id in table.schools <==> exists j :: 0 <= j < |orders| && orders[j].school == id
    ensures table.saplings == SaplingCounts(orders, table.schools)
    ensures table.weekly == RecentSaplingCounts(orders, table.schools, now, WeeklyDays)
    ensures Sum(table.saplings) == SumNumbers(orders)
    ensures NonNegative(orders) ==> forall k :: 0 <= k < |table.schools| ==> table.weekly[k] <= table.saplings[k]
  {
    var schools := SchoolCodes(orders);
    var saplings := SaplingCounts(orders, schools);
    var weekly := RecentSaplingCounts(orders, schools, now, WeeklyDays);
    assert Sum(saplings) == SumNumbers(orders) by {
      StrictlyIncreasingIsDistinct(schools);
      SaplingCountsConserve(orders, schools);
    }
    assert NonNegative(orders) ==> forall k :: 0 <= k < |schools| ==> weekly[k] <= saplings[k] by {
      RecentWithinTotal(orders, schools, now, WeeklyDays);
    }
    CountTable(schools, saplings, weekly)
  }

  // --------------------------------------------------------- contest windows

  /**
   `competition_count`: how many contests have started by `now`, by floor
   division; `now` lies in the last of them.
   */
  function CompetitionCount(now: int): (n: int)
    ensures ContestStart + (n - 1) * ContestLength <= now < ContestStart + n * ContestLength
  {
    (now - ContestStart) / ContestLength + 1
  }

  /**
   The list of contest windows built in `upload_data`: window `i` runs from
   `ContestStart + i * ContestLength` to the start of window `i + 1`, and
   there is one window more than `CompetitionCount(now)`.
   */
  function ContestWindows(now: int): (ws: seq<Window>)
    ensures |ws| == (if (now - ContestStart) / ContestLength + 2 > 0 then (now - ContestStart) / ContestLength + 2 else 0)
    ensures forall i :: 0 <= i < |ws| ==> ws[i].start == ContestStart + i * ContestLength
    ensures forall i :: 0 <= i < |ws| ==> ws[i].end - ws[i].start == ContestLength
    ensures forall i :: 0 <= i < |ws| - 1 ==> ws[i].end == ws[i + 1].start
  {
    var n := CompetitionCount(now) + 1;
    seq(if n > 0 then n else 0, i => Window(ContestStart + i * ContestLength, ContestStart + (i + 1) * ContestLength))
  }

  /**
   Every instant from the first contest's start up to `now` lies in some
   window, and the last window starts after `now`.
   */
  lemma WindowsCoverUpToNow(now: int, t: int)
    requires ContestStart <= t <= now
    ensures exists i :: 0 <= i < |ContestWindows(now)| && Meets(Order(0, t, 0), During(ContestWindows(now)[i]))
    ensures ContestWindows(now)[|ContestWindows(now)| - 1].start > now
  {
    var ws := ContestWindows(now);
    var i := (t - ContestStart) / ContestLength;
    var q := (now - ContestStart) / ContestLength;
    assert ContestStart + i * ContestLength <= t < ContestStart + (i + 1) * ContestLength;
    assert ContestStart + q * ContestLength <= now < ContestStart + (q + 1) * ContestLength;
    assert i <= q;
    assert |ws| == q + 2;
    assert Meets(Order(0, t, 0), During(ws[i]));
    assert ws[q + 1].start == ContestStart + (q + 1) * ContestLength;
  }

  // ------------------------------------------------------------- the contest

  /**
   The contest table's cell for listed school `k` and window `w`: the sum of
   `number` over that school's orders inside the window. Only the first row
   of a repeated school id is ever written, so a later repeat stays 0.
   */
  function Cell(orders: seq<Order>, schools: seq<int>, k: nat, w: Window): int
    requires k < |schools|
  {
    if FirstIndex(schools, schools[k]) == k then SumNumbers(Select(Select(orders, OfSchool(schools[k])), During(w)))
    else 0
  }

  /** `column` is window `w`'s column of the contest table built from `orders`. */
  predicate IsColumn(column: seq<int>, orders: seq<Order>, schools: seq<int>, w: Window) {
    && |column| == |schools|
    && forall k :: 0 <= k < |schools| ==> column[k] == Cell(orders, schools, k, w)
  }

  /** An order inside window `w` whose school has no row: the one the scan raises on. */
  predicate Stray(o: Order, schools: seq<int>, w: Window) {
    Meets(o, During(w)) && o.school !in schools
  }

  lemma CellStep(orders: seq<Order>, o: Order, schools: seq<int>, k: nat, w: Window)
    requires k < |schools|
    ensures Cell(orders + [o], schools, k, w)
         == Cell(orders, schools, k, w)
          + (if Meets(o, During(w)) && o.school in schools && FirstIndex(schools, o.school) == k then o.number else 0)
  {
    if FirstIndex(schools, schools[k]) == k {
      var id := schools[k];
      SelectAppend(orders, o, OfSchool(id));
      if o.school == id {
        SelectAppend(Select(orders, OfSchool(id)), o, During(w));
        if Meets(o, During(w)) {
          SumNumbersAppend(Select(Select(orders, OfSchool(id)), During(w)), o);
        }
      }
    }
  }

  /** Before any order is scanned every cell is 0. */
  lemma EmptyColumn(schools: seq<int>, w: Window)
    ensures IsColumn(seq(|schools|, _ => 0), [], schools, w)
  {
    forall k | 0 <= k < |schools| ensures Cell([], schools, k, w) == 0 {
    }
  }

  /** One step of the scan: crediting order `i` to its school's row extends the column by that order. */
  lemma ScanStep(orders: seq<Order>, from: nat, i: nat, schools: seq<int>, w: Window, column: seq<int>, column': seq<int>)
    requires from <= i < |orders|
    requires IsColumn(column, orders[from..i], schools, w)
    requires Meets(orders[i], During(w)) && orders[i].school in schools ==>
      column' == column[FirstIndex(schools, orders[i].school) := column[FirstIndex(schools, orders[i].school)] + orders[i].number]
    requires !(Meets(orders[i], During(w)) && orders[i].school in schools) ==> column' == column
    ensures IsColumn(column', orders[from..i + 1], schools, w)
  {
    var prefix := orders[from..i];
    assert orders[from..i + 1] == prefix + [orders[i]];
    forall k | 0 <= k < |schools| ensures column'[k] == Cell(prefix + [orders[i]], schools, k, w) {
      CellStep(prefix, orders[i], schools, k, w);
    }
  }

  /**
   The inner scan of `update_contest`: from position `from` to the end of the
   orders, add every order inside window `w` to its school's cell; an order in
   the window whose school is not listed makes `list.index` raise. The scan
   always ends at the last order.
   */
  method ScanWindow(schools: seq<int>, orders: seq<Order>, w: Window, from: nat)
    returns (r: Result<seq<int>, ContestError>, next: nat)
    requires from <= |orders|
    ensures next == |orders|
    ensures r.Failure? <==> exists j :: from <= j < |orders| && Stray(orders[j], schools, w)
    ensures r.Success? ==> IsColumn(r.value, orders[from..], schools, w)
  {
    var column := seq(|schools|, _ => 0);
    var i := from;
    EmptyColumn(schools, w);
    assert orders[from..i] == [];
    while i < |orders|
      invariant from <= i <= |orders|
      invariant IsColumn(column, orders[from..i], schools, w)
      invariant forall j :: from <= j < i ==> !Stray(orders[j], schools, w)
    {
      var o := orders[i];
      var before := column;
      if w.start <= o.submitTime <= w.end {
        if o.school !in schools {
          return Failure(SchoolNotListed(o.school)), |orders|;
        }
        var row := FirstIndex(schools, o.school);
        column := column[row := column[row] + o.number];
      }
      ScanStep(orders, from, i, schools, w, before, column);
      i := i + 1;
    }
    assert orders[from..i] == orders[from..];
    return Success(column), i;
  }

  /**
   The contest table's datetime columns: one per distinct window start, in
   order of first appearance. Assigning `contest[label] = 0` for a label the
   table already has resets that column instead of adding one.
   */
  function StartLabels(times: seq<Window>): (labels: seq<int>)
    ensures |labels| <= |times|
    ensures |times| > 0 ==> |labels| > 0 && labels[0] == times[0].start
  {
    if |times| == 0 then []
    else
      var init := StartLabels(times[..|times| - 1]);
      if times[|times| - 1].start in init then init else init + [times[|times| - 1].start]
  }

  /** Each window start names exactly one column, and no column is named twice. */
  lemma {:induction false} StartLabelsSound(times: seq<Window>)
    ensures Distinct(StartLabels(times))
    ensures forall x :: x in StartLabels(times) <==> exists w :: 0 <= w < |times| && times[w].start == x
  {
    if |times| > 0 {
      var init := times[..|times| - 1];
      StartLabelsSound(init);
      forall x | x in StartLabels(init) ensures exists w :: 0 <= w < |times| && times[w].start == x {
        var w :| 0 <= w < |init| && init[w].start == x;
        assert times[w].start == x;
      }
      forall x | (exists w :: 0 <= w < |times| && times[w].start == x) ensures x in StartLabels(times) {
        var w :| 0 <= w < |times| && times[w].start == x;
        if w < |init| {
          assert init[w].start == x;
        }
      }
    }
  }

  /** Windows whose starts all differ. */
  predicate DistinctStarts(times: seq<Window>) {
    forall a, b :: 0 <= a < b < |times| ==> times[a].start != times[b].start
  }

  /** With distinct starts every window gets a column of its own, in window order. */
  lemma {:induction false} DistinctStartsKeepEveryWindow(times: seq<Window>)
    requires DistinctStarts(times)
    ensures |StartLabels(times)| == |times|
    ensures forall w :: 0 <= w < |times| ==> StartLabels(times)[w] == times[w].start
  {
    if |times| > 0 {
      var init := times[..|times| - 1];
      DistinctStartsKeepEveryWindow(init);
    }
  }

  /** The contest windows built by the dashboard start at distinct instants. */
  lemma ContestWindowsHaveDistinctStarts(now: int)
    ensures DistinctStarts(ContestWindows(now))
  {
  }

  /** Some window after the first starts where the first one does, among the first `n` windows. */
  predicate FirstWindowReopened(times: seq<Window>, n: int) {
    exists v :: 1 <= v < |times| && v < n && times[v].start == times[0].start
  }

  /**
   `update_contest` as written: the scan position `i` is set to 0 once,
   before the loop over windows, and never reset. The first window's scan
   runs to the last order, so later windows scan nothing: only the first
   column is filled, and only an order in the first window can raise. A
   later window starting where the first one does resets that column to 0.
   */
  method UpdateContestAsWritten(schools: seq<int>, orders: seq<Order>, times: seq<Window>)
    returns (r: Result<seq<seq<int>>, ContestError>)
    ensures r.Failure? <==> |times| > 0 && exists j :: 0 <= j < |orders| && Stray(orders[j], schools, times[0])
    ensures r.Success? ==> |r.value| == |StartLabels(times)|
    ensures r.Success? && |times| > 0 && !FirstWindowReopened(times, |times|) ==>
      IsColumn(r.value[0], orders, schools, times[0])
    ensures r.Success? && FirstWindowReopened(times, |times|) ==> r.value[0] == seq(|schools|, _ => 0)
    ensures r.Success? ==> forall c :: 1 <= c < |r.value| ==> r.value[c] == seq(|schools|, _ => 0)
  {
    var zeros := seq(|schools|, _ => 0);
    var labels: seq<int> := [];
    var columns: seq<seq<int>> := [];
    var i := 0;
    var w := 0;
    assert orders[0..] == orders;
    while w < |times|
      invariant 0 <= w <= |times|
      invariant labels == StartLabels(times[..w])
      invariant |columns| == |labels|
      invariant i == (if w == 0 then 0 else |orders|)
      invariant w > 0 ==> forall j :: 0 <= j < |orders| ==> !Stray(orders[j], schools, times[0])
      invariant w > 0 && !FirstWindowReopened(times, w) ==> IsColumn(columns[0], orders, schools, times[0])
      invariant FirstWindowReopened(times, w) ==> columns[0] == zeros
      invariant forall c :: 1 <= c < |columns| ==> columns[c] == zeros
    {
      assert times[..w + 1][..w] == times[..w];
      assert times[..w + 1][w] == times[w];
      var start := times[w].start;
      if start in labels {
        columns := columns[FirstIndex(labels, start) := zeros];
      } else {
        labels := labels + [start];
        columns := columns + [zeros];
      }
      var from := i;
      var scanned, next := ScanWindow(schools, orders, times[w], i);
      if scanned.Failure? {
        return Failure(scanned.error);
      }
      if from < |orders| {
        // Only the first window scans anything; its column is the first one and still all zeros.
        columns := columns[0 := scanned.value];
      } else if w == 0 {
        EmptyColumn(schools, times[0]);
      }
      i := next;
      w := w + 1;
    }
    assert times[..w] == times;
    return Success(columns);
  }

  /**
   `update_contest` with the scan position reset for every window: each
   column holds, per listed school, the sum over its orders inside that
   window, and the call fails exactly when some order inside some window
   belongs to an unlisted school. The windows start at distinct instants, as
   the dashboard's own windows do, so each gets a column of its own.
   */
  method UpdateContest(schools: seq<int>, orders: seq<Order>, times: seq<Window>)
    returns (r: Result<seq<seq<int>>, ContestError>)
    requires DistinctStarts(times)
    ensures r.Failure? <==> exists w, j :: 0 <= w < |times| && 0 <= j < |orders| && Stray(orders[j], schools, times[w])
    ensures r.Success? ==> |r.value| == |times|
    ensures r.Success? ==> forall w :: 0 <= w < |times| ==> IsColumn(r.value[w], orders, schools, times[w])
  {
    var columns: seq<seq<int>> := [];
    var w := 0;
    assert orders[0..] == orders;
    while w < |times|
      invariant 0 <= w <= |times|
      invariant |columns| == w
      invariant forall c :: 0 <= c < w ==> IsColumn(columns[c], orders, schools, times[c])
      invariant forall c, j :: 0 <= c < w && 0 <= j < |orders| ==> !Stray(orders[j], schools, times[c])
    {
      var scanned, _ := ScanWindow(schools, orders, times[w], 0);
      if scanned.Failure? {
        return Failure(scanned.error);
      }
      columns := columns + [scanned.value];
      w := w + 1;
    }
    return Success(columns);
  }

  /** The dashboard's own school list holds every school of the orders, so the contest cannot fail on it. */
  lemma OwnSchoolsAreListed(orders: seq<Order>)
    ensures forall j :: 0 <= j < |orders| ==> orders[j].school in SchoolCodes(orders)
  {
  }

  /**
   An order placed during the second contest: the corrected table counts it
   in the second column, while in the first window, the only column the
   as-written scan fills, it counts for nothing.
   */
  lemma SecondContestOrderIsDropped()
    ensures |ContestWindows(ContestStart)| == 2
    ensures Cell([Order(7, ContestStart + ContestLength + 1, 5)], [7], 0, ContestWindows(ContestStart)[0]) == 0
    ensures Cell([Order(7, ContestStart + ContestLength + 1, 5)], [7], 0, ContestWindows(ContestStart)[1]) == 5
  {
    var o := Order(7, ContestStart + ContestLength + 1, 5);
    var ws := ContestWindows(ContestStart);
    assert ws[0] == Window(ContestStart, ContestStart + ContestLength);
    assert ws[1] == Window(ContestStart + ContestLength, ContestStart + 2 * ContestLength);
    assert [o] == [] + [o];
    SelectAppend([], o, OfSchool(7));
    assert Select([o], OfSchool(7)) == [o];
    SelectAppend([], o, During(ws[0]));
    SelectAppend([], o, During(ws[1]));
    assert Select([o], During(ws[0])) == [];
    assert Select([o], During(ws[1])) == [o];
    SumNumbersAppend([], o);
  }
}

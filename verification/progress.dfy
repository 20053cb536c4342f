/**
 The commitments map's post-processing of classified states: drop the
 unknown labels, upper-case the rest, count commitments per state and order
 the counts from most to fewest.
 */
module Progress {
  import opened Text
  import opened Seqs
  import States

  /** One row of the grouped table: a state and the number of commitments from it. */
  datatype StateCount = StateCount(state: string, count: nat)

  /** `known_idx`: the positions whose label is not the sentinel, in increasing order. */
  function KnownIndices(labels: seq<string>): (idx: seq<nat>)
    ensures |idx| == |labels| - Count(labels, States.Unknown)
    ensures forall k :: 0 <= k < |idx| ==> idx[k] < |labels| && labels[idx[k]] != States.Unknown
    ensures forall j :: 0 <= j < |labels| && labels[j] != States.Unknown ==> j in idx
    ensures forall a, b :: 0 <= a < b < |idx| ==> idx[a] < idx[b]
  {
    if |labels| == 0 then []
    else
      var n := |labels| - 1;
      var rest := KnownIndices(labels[..n]);
      if labels[n] != States.Unknown then rest + [n] else rest
  }

  /**
   `np.array(states)[known_idx]`: the labels at the known positions, in their
   original order. No sentinel survives.
   */
  function DropUnknown(labels: seq<string>): (kept: seq<string>)
    ensures |kept| == |labels| - Count(labels, States.Unknown)
    ensures States.Unknown !in kept
  {
    Gather(labels, KnownIndices(labels))
  }

  /** The known positions of a longer column extend those of its prefix by at most the new last position. */
  lemma KnownIndicesStep(labels: seq<string>)
    requires |labels| > 0
    ensures labels[|labels| - 1] != States.Unknown ==>
      KnownIndices(labels) == KnownIndices(labels[..|labels| - 1]) + [|labels| - 1]
    ensures labels[|labels| - 1] == States.Unknown ==>
      KnownIndices(labels) == KnownIndices(labels[..|labels| - 1])
  {
  }

  lemma DropUnknownStep(labels: seq<string>)
    requires |labels| > 0
    ensures labels[|labels| - 1] != States.Unknown ==>
      DropUnknown(labels) == DropUnknown(labels[..|labels| - 1]) + [labels[|labels| - 1]]
    ensures labels[|labels| - 1] == States.Unknown ==>
      DropUnknown(labels) == DropUnknown(labels[..|labels| - 1])
  {
    var n := |labels| - 1;
    var init := labels[..n];
    assert labels == init + [labels[n]];
    KnownIndicesStep(labels);
    GatherExtend(init, labels[n], KnownIndices(init));
  }

  /** Dropping the sentinel keeps every other label exactly as often as it occurred. */
  lemma {:induction false} DropUnknownKeepsCounts(labels: seq<string>, x: string)
    requires x != States.Unknown
    ensures Count(DropUnknown(labels), x) == Count(labels, x)
  {
    if |labels| > 0 {
      var n := |labels| - 1;
      var init := labels[..n];
      assert labels == init + [labels[n]];
      DropUnknownKeepsCounts(init, x);
      DropUnknownStep(labels);
      CountAppend(init, labels[n], x);
      if labels[n] != States.Unknown {
        CountAppend(DropUnknown(init), labels[n], x);
      }
    }
  }

  /**
   Dropping the sentinel distributes over concatenation: the kept labels of
   a longer column extend those of its prefix, so kept entries keep their
   relative order.
   */
  lemma {:induction false} DropUnknownAppend(a: seq<string>, b: seq<string>)
    ensures DropUnknown(a + b) == DropUnknown(a) + DropUnknown(b)
  {
    if |b| == 0 {
      assert a + b == a;
      assert DropUnknown(b) == [];
    } else {
      var n := |b| - 1;
      var ab := a + b;
      assert ab[..|ab| - 1] == a + b[..n];
      DropUnknownAppend(a, b[..n]);
      DropUnknownStep(ab);
      DropUnknownStep(b);
      if b[n] != States.Unknown {
        assert DropUnknown(ab) == DropUnknown(a) + DropUnknown(b[..n]) + [b[n]];
      }
    }
  }

  /**
   The labels dropped as unknown are exactly the inputs the tally counted as
   unidentified, so the plottable count is the number of inputs less that
   counter.
   */
  lemma UnknownCountIsUnidentified(table: seq<States.Entry>, inputs: seq<string>)
    ensures Count(States.Labels(table, inputs), States.Unknown)
         == Count(States.Categories(table, inputs), States.Unidentified)
    ensures |Plottable(States.Labels(table, inputs))|
         == |inputs| - Count(States.Categories(table, inputs), States.Unidentified)
  {
    var labels := States.Labels(table, inputs);
    var cats := States.Categories(table, inputs);
    forall k | 0 <= k < |inputs| ensures labels[k] == States.Unknown <==> cats[k] == States.Unidentified {
      States.LabelIsUnknownOrCode(table, inputs[k]);
    }
    CountMatches(labels, States.Unknown, cats, States.Unidentified);
  }

  /** The plotted state column: the kept labels, upper-cased for the map's location mode. */
  function Plottable(labels: seq<string>): (states: seq<string>)
    ensures |states| == |labels| - Count(labels, States.Unknown)
    ensures forall k :: 0 <= k < |states| ==> states[k] == Upper(DropUnknown(labels)[k])
  {
    var kept := DropUnknown(labels);
    seq(|kept|, k requires 0 <= k < |kept| => Upper(kept[k]))
  }

  /** One label plots as nothing when it is the sentinel, and as its upper case otherwise. */
  lemma PlottableOfOne(x: string)
    ensures x == States.Unknown ==> Plottable([x]) == []
    ensures x != States.Unknown ==> Plottable([x]) == [Upper(x)]
  {
    assert [x][..0] == [];
    DropUnknownStep([x]);
  }

  /**
   Plotting distributes over concatenation; with `PlottableOfOne` this fixes
   the plotted column of any label column.
   */
  lemma PlottableAppend(a: seq<string>, b: seq<string>)
    ensures Plottable(a + b) == Plottable(a) + Plottable(b)
  {
    DropUnknownAppend(a, b);
    var ka := DropUnknown(a);
    var kb := DropUnknown(b);
    var pa := Plottable(a);
    var pb := Plottable(b);
    var p := Plottable(a + b);
    assert |p| == |pa + pb|;
    forall k | 0 <= k < |p| ensures p[k] == (pa + pb)[k] {
      assert p[k] == Upper((ka + kb)[k]);
      if k < |ka| {
        assert (ka + kb)[k] == ka[k] && (pa + pb)[k] == pa[k];
      } else {
        assert (ka + kb)[k] == kb[k - |ka|] && (pa + pb)[k] == pb[k - |ka|];
      }
    }
  }

  /**
   Every plotted state is the upper-case form of some row's code in the
   reference table.
   */
  lemma PlottableAreUpperCodes(table: seq<States.Entry>, inputs: seq<string>)
    ensures forall x :: x in Plottable(States.Labels(table, inputs)) ==>
      exists i :: 0 <= i < |table| && x == Upper(table[i].code)
  {
    var labels := States.Labels(table, inputs);
    var states := Plottable(labels);
    forall x | x in states ensures exists i :: 0 <= i < |table| && x == Upper(table[i].code) {
      var k :| 0 <= k < |states| && states[k] == x;
      var j := KnownIndices(labels)[k];
      assert DropUnknown(labels)[k] == labels[j];
      States.LabelIsUnknownOrCode(table, inputs[j]);
      var i :| 0 <= i < |table| && labels[j] == Lower(table[i].code);
      UpperOfLower(table[i].code);
    }
  }

  /** No state has two rows. */
  predicate UniqueStates(g: seq<StateCount>) {
    Distinct(StatesOf(g))
  }

  predicate NonIncreasing(g: seq<StateCount>) {
    forall i, j :: 0 <= i < j < |g| ==> g[i].count >= g[j].count
  }

  /** The sum of the counts of a grouped table. */
  function Total(g: seq<StateCount>): int
  {
    if |g| == 0 then 0 else Total(g[..|g| - 1]) + g[|g| - 1].count
  }

  lemma {:induction false} TotalBump(g: seq<StateCount>, i: nat)
    requires i < |g|
    ensures Total(g[i := StateCount(g[i].state, g[i].count + 1)]) == Total(g) + 1
  {
    var g' := g[i := StateCount(g[i].state, g[i].count + 1)];
    if i < |g| - 1 {
      assert g'[..|g| - 1] == g[..|g| - 1][i := StateCount(g[i].state, g[i].count + 1)];
      TotalBump(g[..|g| - 1], i);
    } else {
      assert g'[..|g| - 1] == g[..|g| - 1];
    }
  }

  lemma TotalAppend(g: seq<StateCount>, p: StateCount)
    ensures Total(g + [p]) == Total(g) + p.count
  {
    assert (g + [p])[..|g|] == g;
  }

  /** The group table of `xs`: every row's count is the number of occurrences of its state. */
  predicate Groups(g: seq<StateCount>, xs: seq<string>) {
    && UniqueStates(g)
    && (forall i :: 0 <= i < |g| ==> g[i].count == Count(xs, g[i].state) && g[i].count >= 1)
    && (forall x :: x in xs ==> exists i :: 0 <= i < |g| && g[i].state == x)
  }

  /** The states of a grouped table, in row order. */
  function StatesOf(g: seq<StateCount>): (keys: seq<string>)
    ensures |keys| == |g|
    ensures forall i :: 0 <= i < |g| ==> keys[i] == g[i].state
  {
    seq(|g|, i requires 0 <= i < |g| => g[i].state)
  }

  /** Records one more occurrence of `x`: bumps its row, or adds a row with count 1. */
  function AddOne(g: seq<StateCount>, x: string): seq<StateCount>
  {
    if x in StatesOf(g) then
      var i := FirstIndex(StatesOf(g), x);
      g[i := StateCount(x, g[i].count + 1)]
    else
      g + [StateCount(x, 1)]
  }

  lemma AddOneToExisting(g: seq<StateCount>, xs: seq<string>, x: string, i: nat)
    requires Groups(g, xs)
    requires i < |g| && g[i].state == x
    ensures Groups(g[i := StateCount(x, g[i].count + 1)], xs + [x])
  {
    var r := g[i := StateCount(x, g[i].count + 1)];
    forall a | 0 <= a < |r| ensures r[a].count == Count(xs + [x], r[a].state) {
      CountAppend(xs, x, r[a].state);
    }
    forall y | y in xs + [x] ensures exists j :: 0 <= j < |r| && r[j].state == y {
      if y == x {
        assert r[i].state == y;
      } else {
        assert y in xs;
        var j :| 0 <= j < |g| && g[j].state == y;
        assert r[j].state == y;
      }
    }
  }

  lemma AddOneAsNew(g: seq<StateCount>, xs: seq<string>, x: string)
    requires Groups(g, xs)
    requires forall i :: 0 <= i < |g| ==> g[i].state != x
    ensures Groups(g + [StateCount(x, 1)], xs + [x])
  {
    var r := g + [StateCount(x, 1)];
    assert x !in xs;
    CountZero(xs, x);
    forall a | 0 <= a < |r| ensures r[a].count == Count(xs + [x], r[a].state) {
      CountAppend(xs, x, r[a].state);
    }
    forall y | y in xs + [x] ensures exists j :: 0 <= j < |r| && r[j].state == y {
      if y == x {
        assert r[|g|].state == y;
      } else {
        assert y in xs;
        var j :| 0 <= j < |g| && g[j].state == y;
        assert r[j].state == y;
      }
    }
  }

  lemma AddOneGroups(g: seq<StateCount>, xs: seq<string>, x: string)
    requires Groups(g, xs)
    ensures Groups(AddOne(g, x), xs + [x])
  {
    if x in StatesOf(g) {
      var i := FirstIndex(StatesOf(g), x);
      assert AddOne(g, x) == g[i := StateCount(x, g[i].count + 1)];
      AddOneToExisting(g, xs, x, i);
    } else {
      assert AddOne(g, x) == g + [StateCount(x, 1)];
      AddOneAsNew(g, xs, x);
    }
  }

  lemma AddOneTotal(g: seq<StateCount>, x: string)
    ensures Total(AddOne(g, x)) == Total(g) + 1
  {
    if x in StatesOf(g) {
      var i := FirstIndex(StatesOf(g), x);
      assert g[i].state == x;
      TotalBump(g, i);
    } else {
      TotalAppend(g, StateCount(x, 1));
    }
  }

  /** `df.groupby("STATE").agg(len)`: one row per distinct state with its number of occurrences. */
  function GroupCount(xs: seq<string>): (g: seq<StateCount>)
    ensures Groups(g, xs)
    ensures Total(g) == |xs|
  {
    if |xs| == 0 then []
    else
      var init := xs[..|xs| - 1];
      assert xs == init + [xs[|xs| - 1]];
      AddOneGroups(GroupCount(init), init, xs[|xs| - 1]);
      AddOneTotal(GroupCount(init), xs[|xs| - 1]);
      AddOne(GroupCount(init), xs[|xs| - 1])
  }

  /** Places `p` before the first row with a smaller count. */
  function InsertByCount(p: StateCount, s: seq<StateCount>): (r: seq<StateCount>)
    requires NonIncreasing(s)
    ensures |r| == |s| + 1
    ensures NonIncreasing(r)
    ensures r[0] == p || (0 < |s| && r[0] == s[0])
    ensures multiset(r) == multiset(s) + multiset{p}
  {
    if |s| == 0 then [p]
    else if p.count >= s[0].count then
      PrependKeepsOrder(p, s);
      [p] + s
    else
      var rest := InsertByCount(p, s[1..]);
      assert s == [s[0]] + s[1..];
      PrependKeepsOrder(s[0], rest);
      [s[0]] + rest
  }

  /** A row whose count is at least the first count of a sorted table can go in front of it. */
  lemma PrependKeepsOrder(q: StateCount, s: seq<StateCount>)
    requires NonIncreasing(s)
    requires 0 < |s| ==> q.count >= s[0].count
    ensures NonIncreasing([q] + s)
  {
    var r := [q] + s;
    forall i, j | 0 <= i < j < |r| ensures r[i].count >= r[j].count {
      if i == 0 {
        assert r[j] == s[j - 1];
      } else {
        assert r[i] == s[i - 1] && r[j] == s[j - 1];
      }
    }
  }

  lemma {:induction false} TotalPrepend(p: StateCount, s: seq<StateCount>)
    ensures Total([p] + s) == p.count + Total(s)
  {
    if |s| > 0 {
      assert ([p] + s)[..|s|] == [p] + s[..|s| - 1];
      TotalPrepend(p, s[..|s| - 1]);
    }
  }

  lemma {:induction false} InsertByCountTotal(p: StateCount, s: seq<StateCount>)
    requires NonIncreasing(s)
    ensures Total(InsertByCount(p, s)) == Total(s) + p.count
  {
    if |s| > 0 {
      if p.count >= s[0].count {
        TotalPrepend(p, s);
      } else {
        assert s == [s[0]] + s[1..];
        InsertByCountTotal(p, s[1..]);
        TotalPrepend(s[0], InsertByCount(p, s[1..]));
        TotalPrepend(s[0], s[1..]);
      }
    } else {
      TotalPrepend(p, s);
    }
  }

  lemma {:induction false} InsertByCountUnique(p: StateCount, s: seq<StateCount>)
    requires NonIncreasing(s)
    requires UniqueStates(s)
    requires forall q :: q in s ==> q.state != p.state
    ensures UniqueStates(InsertByCount(p, s))
  {
    if |s| > 0 && p.count < s[0].count {
      assert s == [s[0]] + s[1..];
      var rest := InsertByCount(p, s[1..]);
      InsertByCountUnique(p, s[1..]);
      forall q | q in rest ensures q.state != s[0].state {
        assert q in multiset(rest);
      }
      PrependUnique(s[0], rest);
    } else {
      PrependUnique(p, s);
    }
  }

  /** A row whose state no row of a table has can go in front of it. */
  lemma PrependUnique(q: StateCount, s: seq<StateCount>)
    requires UniqueStates(s)
    requires forall t :: t in s ==> t.state != q.state
    ensures UniqueStates([q] + s)
  {
    var r := [q] + s;
    forall i, j | 0 <= i < j < |r| ensures r[i].state != r[j].state {
      assert r[j] == s[j - 1];
      if i == 0 {
        assert s[j - 1] in s;
      } else {
        assert r[i] == s[i - 1];
      }
    }
  }

  /** `sort_values(ascending=False)` on the counts: a reordering with counts from most to fewest. */
  function SortByCount(g: seq<StateCount>): (r: seq<StateCount>)
    ensures NonIncreasing(r)
    ensures multiset(r) == multiset(g)
  {
    if |g| == 0 then []
    else
      assert g == [g[0]] + g[1..];
      InsertByCount(g[0], SortByCount(g[1..]))
  }

  /** Sorting does not change the total of the counts. */
  lemma {:induction false} SortByCountTotal(g: seq<StateCount>)
    ensures Total(SortByCount(g)) == Total(g)
  {
    if |g| > 0 {
      assert g == [g[0]] + g[1..];
      var rest := SortByCount(g[1..]);
      SortByCountTotal(g[1..]);
      InsertByCountTotal(g[0], rest);
      TotalPrepend(g[0], g[1..]);
    }
  }

  /** Sorting keeps the states unique. */
  lemma {:induction false} SortByCountUnique(g: seq<StateCount>)
    requires UniqueStates(g)
    ensures UniqueStates(SortByCount(g))
  {
    if |g| > 0 {
      assert g == [g[0]] + g[1..];
      var rest := SortByCount(g[1..]);
      SortByCountUnique(g[1..]);
      forall q | q in rest ensures q.state != g[0].state {
        assert q in multiset(rest);
        assert q in g[1..];
      }
      InsertByCountUnique(g[0], rest);
    }
  }

  lemma SortKeepsGroups(g: seq<StateCount>, xs: seq<string>)
    requires Groups(g, xs)
    ensures Groups(SortByCount(g), xs)
    ensures Total(SortByCount(g)) == Total(g)
  {
    var r := SortByCount(g);
    SortByCountTotal(g);
    SortByCountUnique(g);
    forall a | 0 <= a < |r| ensures r[a].count == Count(xs, r[a].state) && r[a].count >= 1 {
      assert r[a] in multiset(g);
    }
    forall x | x in xs ensures exists i :: 0 <= i < |r| && r[i].state == x {
      var a :| 0 <= a < |g| && g[a].state == x;
      assert g[a] in multiset(r);
    }
  }

  /**
   The per-state table of the map: one row per plotted state, its count is
   the number of commitments from that state, the counts add up to the number
   of plotted commitments, and rows run from most to fewest commitments.
   */
  function StateCounts(labels: seq<string>): (counts: seq<StateCount>)
    ensures Groups(counts, Plottable(labels))
    ensures Total(counts) == |Plottable(labels)|
    ensures NonIncreasing(counts)
  {
    var g := GroupCount(Plottable(labels));
    SortKeepsGroups(g, Plottable(labels));
    SortByCount(g)
  }
}

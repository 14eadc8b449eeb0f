/**
 * Counting the values of a column: pandas' `value_counts()`, and the
 * per-group `count` of `groupby`.
 */
module Tally {

  /** How many times x occurs in xs. */
  function Count(xs: seq<string>, x: string): nat
  {
    if xs == [] then 0
    else Count(xs[..|xs| - 1], x) + (if xs[|xs| - 1] == x then 1 else 0)
  }

  /** The values of xs without repetition, in order of first appearance. */
  function Distinct(xs: seq<string>): seq<string>
  {
    if xs == [] then []
    else
      var d := Distinct(xs[..|xs| - 1]);
      if xs[|xs| - 1] in d then d else d + [xs[|xs| - 1]]
  }

  predicate NoDuplicates(ks: seq<string>)
  {
    forall i, j | 0 <= i < j < |ks| :: ks[i] != ks[j]
  }

  /** Distinct lists every value of xs exactly once. */
  lemma {:induction false} DistinctIsSet(xs: seq<string>)
    ensures NoDuplicates(Distinct(xs))
    ensures forall x :: x in Distinct(xs) <==> x in xs
  {
    if xs != [] {
      var init := xs[..|xs| - 1];
      DistinctIsSet(init);
      assert xs == init + [xs[|xs| - 1]];
    }
  }

  /** `xs.index(x)`: the first position at which x stands in xs. */
  function PositionOf(xs: seq<string>, x: string): (i: nat)
    requires x in xs
    ensures i < |xs| && xs[i] == x
    ensures forall j | 0 <= j < i :: xs[j] != x
  {
    if xs[0] == x then 0 else 1 + PositionOf(xs[1..], x)
  }

  /** A value that does not occur has count zero. */
  lemma {:induction false} CountAbsent(xs: seq<string>, x: string)
    requires x !in xs
    ensures Count(xs, x) == 0
  {
    if xs != [] {
      CountAbsent(xs[..|xs| - 1], x);
    }
  }

  /** The counts of the given keys, added up. */
  function SumCounts(keys: seq<string>, xs: seq<string>): nat
  {
    if keys == [] then 0
    else SumCounts(keys[..|keys| - 1], xs) + Count(xs, keys[|keys| - 1])
  }

  lemma {:induction false} SumCountsAppend(keys: seq<string>, xs: seq<string>, x: string)
    requires NoDuplicates(keys)
    ensures SumCounts(keys, xs + [x]) == SumCounts(keys, xs) + (if x in keys then 1 else 0)
  {
    if keys != [] {
      var init := keys[..|keys| - 1];
      SumCountsAppend(init, xs, x);
      assert (xs + [x])[..|xs + [x]| - 1] == xs;
      assert keys == init + [keys[|keys| - 1]];
    }
  }

  /** The counts of the distinct values add up to the number of values. */
  lemma {:induction false} SumOfDistinctCounts(xs: seq<string>)
    ensures SumCounts(Distinct(xs), xs) == |xs|
  {
    if xs != [] {
      var init := xs[..|xs| - 1];
      var x := xs[|xs| - 1];
      var d := Distinct(init);
      assert xs == init + [x];
      SumOfDistinctCounts(init);
      DistinctIsSet(init);
      SumCountsAppend(d, init, x);
      if x !in d {
        CountAbsent(init, x);
        assert (d + [x])[..|d + [x]| - 1] == d;
      }
    }
  }

  /** One line of `value_counts()`: a value and how often it occurs. */
  datatype Entry = Entry(key: string, count: nat)

  function Total(es: seq<Entry>): nat
  {
    if es == [] then 0 else es[0].count + Total(es[1..])
  }

  lemma {:induction false} TotalAppend(es: seq<Entry>, e: Entry)
    ensures Total(es + [e]) == Total(es) + e.count
  {
    if es != [] {
      assert (es + [e])[1..] == es[1..] + [e];
      TotalAppend(es[1..], e);
    }
  }

  /** The entries for the given keys, in the keys' order. */
  function EntriesFor(keys: seq<string>, xs: seq<string>): (es: seq<Entry>)
    ensures |es| == |keys|
    ensures forall i | 0 <= i < |keys| :: es[i] == Entry(keys[i], Count(xs, keys[i]))
  {
    seq(|keys|, i requires 0 <= i < |keys| => Entry(keys[i], Count(xs, keys[i])))
  }

  lemma {:induction false} TotalOfEntries(keys: seq<string>, xs: seq<string>)
    ensures Total(EntriesFor(keys, xs)) == SumCounts(keys, xs)
  {
    if keys != [] {
      var init := keys[..|keys| - 1];
      TotalOfEntries(init, xs);
      assert EntriesFor(keys, xs) == EntriesFor(init, xs) + [Entry(keys[|keys| - 1], Count(xs, keys[|keys| - 1]))];
      TotalAppend(EntriesFor(init, xs), Entry(keys[|keys| - 1], Count(xs, keys[|keys| - 1])));
    }
  }

  /** Entries ordered by count, largest first. */
  predicate SortedByCount(es: seq<Entry>)
  {
    forall i, j | 0 <= i < j < |es| :: es[i].count >= es[j].count
  }

  predicate DistinctLabels(es: seq<Entry>)
  {
    forall i, j | 0 <= i < j < |es| :: es[i].key != es[j].key
  }

  /** Puts e after every entry whose count is at least e's. */
  function Insert(e: Entry, es: seq<Entry>): (r: seq<Entry>)
    ensures |r| == |es| + 1
    ensures forall x :: x in r <==> x == e || x in es
  {
    if es == [] then [e]
    else if es[0].count < e.count then [e] + es
    else [es[0]] + Insert(e, es[1..])
  }

  lemma {:induction false} InsertTotal(e: Entry, es: seq<Entry>)
    ensures Total(Insert(e, es)) == e.count + Total(es)
  {
    if es != [] && es[0].count >= e.count {
      InsertTotal(e, es[1..]);
      assert ([es[0]] + Insert(e, es[1..]))[1..] == Insert(e, es[1..]);
    } else if es != [] {
      assert ([e] + es)[1..] == es;
    }
  }

  lemma {:induction false} InsertSorted(e: Entry, es: seq<Entry>)
    requires SortedByCount(es)
    ensures SortedByCount(Insert(e, es))
  {
    if es != [] && es[0].count >= e.count {
      var tail := Insert(e, es[1..]);
      InsertSorted(e, es[1..]);
      var r := [es[0]] + tail;
      forall i, j | 0 <= i < j < |r| ensures r[i].count >= r[j].count {
        if i == 0 {
          assert r[j] in tail;
        }
      }
    }
  }

  lemma {:induction false} InsertDistinct(e: Entry, es: seq<Entry>)
    requires DistinctLabels(es)
    requires forall x | x in es :: x.key != e.key
    ensures DistinctLabels(Insert(e, es))
  {
    if es != [] && es[0].count >= e.count {
      var tail := Insert(e, es[1..]);
      InsertDistinct(e, es[1..]);
      var r := [es[0]] + tail;
      forall i, j | 0 <= i < j < |r| ensures r[i].key != r[j].key {
        if i == 0 {
          assert r[j] in tail;
        }
      }
    }
  }

  /** Stable sort by count, largest first (ties keep their order). */
  function SortByCount(es: seq<Entry>): (r: seq<Entry>)
    ensures |r| == |es|
    ensures forall x :: x in r <==> x in es
    ensures Total(r) == Total(es)
    ensures SortedByCount(r)
  {
    if es == [] then []
    else
      var init := es[..|es| - 1];
      var last := es[|es| - 1];
      TotalAppend(init, last);
      assert es == init + [last];
      InsertTotal(last, SortByCount(init));
      InsertSorted(last, SortByCount(init));
      Insert(last, SortByCount(init))
  }

  lemma {:induction false} SortByCountDistinct(es: seq<Entry>)
    requires DistinctLabels(es)
    ensures DistinctLabels(SortByCount(es))
  {
    if es != [] {
      var init := es[..|es| - 1];
      var last := es[|es| - 1];
      assert es == init + [last];
      SortByCountDistinct(init);
      forall x | x in SortByCount(init) ensures x.key != last.key {
        var i :| 0 <= i < |init| && init[i] == x;
      }
      InsertDistinct(last, SortByCount(init));
    }
  }

  /** `pd.Series(xs).value_counts()` */
  function ValueCounts(xs: seq<string>): seq<Entry>
  {
    SortByCount(EntriesFor(Distinct(xs), xs))
  }

  /**
   * value_counts lists each distinct value once, with its number of
   * occurrences, most frequent first, and the counts add up to |xs|.
   */
  lemma ValueCountsSpec(xs: seq<string>)
    ensures forall e | e in ValueCounts(xs) :: e.count == Count(xs, e.key) && e.key in xs
    ensures forall x | x in xs :: exists e | e in ValueCounts(xs) :: e.key == x
    ensures |ValueCounts(xs)| == |Distinct(xs)|
    ensures SortedByCount(ValueCounts(xs))
    ensures Total(ValueCounts(xs)) == |xs|
    ensures DistinctLabels(ValueCounts(xs))
  {
    var d := Distinct(xs);
    var es := EntriesFor(d, xs);
    DistinctIsSet(xs);
    SumOfDistinctCounts(xs);
    TotalOfEntries(d, xs);
    SortByCountDistinct(es);
    forall x | x in xs ensures exists e | e in ValueCounts(xs) :: e.key == x {
      var i :| 0 <= i < |d| && d[i] == x;
      assert es[i] in ValueCounts(xs);
    }
  }
}

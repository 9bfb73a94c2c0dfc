/**
 * The frequency tables behind the charts (lib.py:116, 121, 125): pandas'
 * `value_counts` on one column of the filtered view, and `head(10)` of it for
 * the most borrowed titles. `value_counts` skips missing cells and lists each
 * distinct value once with the number of rows holding it, largest count first.
 *
 * The model tallies values in order of first appearance, as a dictionary of
 * counters would, and then sorts the tally by count with an insertion sort.
 */
module Counts {
  import opened Seqs
  import opened Lending

  /** One bar or slice: a value of the column and how many rows hold it. */
  datatype Entry = Entry(key: string, count: nat)

  /** Some entry is for value `v`. */
  predicate HasKey(t: seq<Entry>, v: string)
    decreases |t|
  {
    t != [] && (t[0].key == v || HasKey(t[1..], v))
  }

  /** No value has two entries. */
  predicate DistinctKeys(t: seq<Entry>)
    decreases |t|
  {
    t == [] || (!HasKey(t[1..], t[0].key) && DistinctKeys(t[1..]))
  }

  /** Largest count first: each count is at least the next one. */
  predicate NonIncreasing(t: seq<Entry>)
    decreases |t|
  {
    |t| <= 1 || (t[0].count >= t[1].count && NonIncreasing(t[1..]))
  }

  /** The sum of the counts: what the pie's slices add up to. */
  function Total(t: seq<Entry>): nat
    decreases |t|
  {
    if t == [] then 0 else t[0].count + Total(t[1..])
  }

  /** Every entry's value is a key of the sequence. */
  lemma {:induction false} MembersHaveKeys(t: seq<Entry>)
    ensures forall e :: e in t ==> HasKey(t, e.key)
    decreases |t|
  {
    if t != [] {
      MembersHaveKeys(t[1..]);
      assert forall e :: e in t ==> e == t[0] || e in t[1..];
    }
  }

  // ----- Tallying -----

  /** Count one more occurrence of `x`: bump its entry, or add an entry with count 1 at the end. */
  function Bump(t: seq<Entry>, x: string): (r: seq<Entry>)
    ensures forall v :: HasKey(r, v) <==> HasKey(t, v) || v == x
    ensures DistinctKeys(t) ==> DistinctKeys(r)
    ensures Total(r) == Total(t) + 1
    ensures forall e :: e in r && e.key != x ==> e in t
    ensures DistinctKeys(t) ==> forall e :: e in r && e.key == x ==>
              e.count >= 1 && if HasKey(t, x) then Entry(x, e.count - 1) in t else e.count == 1
    decreases |t|
  {
    if t == [] then
      var r := [Entry(x, 1)];
      assert r[1..] == [];
      r
    else if t[0].key == x then
      var r := [Entry(x, t[0].count + 1)] + t[1..];
      assert r[1..] == t[1..];
      assert t[0] == Entry(x, t[0].count);
      MembersHaveKeys(t[1..]);
      assert DistinctKeys(t) ==> forall e :: e in t[1..] ==> e.key != x;
      assert forall e :: e in r ==> e == r[0] || e in t[1..];
      r
    else
      var rest := Bump(t[1..], x);
      var r := [t[0]] + rest;
      assert r[1..] == rest;
      assert DistinctKeys(t) ==> forall e :: e in r && e.key == x ==>
               e.count >= 1 && if HasKey(t, x) then Entry(x, e.count - 1) in t else e.count == 1 by {
        if DistinctKeys(t) {
          assert DistinctKeys(t[1..]);
          forall e | e in r && e.key == x
            ensures e.count >= 1 && if HasKey(t, x) then Entry(x, e.count - 1) in t else e.count == 1
          {
            assert e in rest;
            if HasKey(t[1..], x) {
              assert Entry(x, e.count - 1) in t;
            }
          }
        }
      }
      r
  }

  /**
   * The counter dictionary for a column: one entry per distinct present
   * value, in order of first appearance, holding the number of its rows.
   */
  function Tally(column: seq<Option<string>>): (t: seq<Entry>)
    ensures DistinctKeys(t)
    ensures forall v :: HasKey(t, v) <==> Some(v) in column
    ensures forall e :: e in t ==> e.count == multiset(column)[Some(e.key)]
    ensures Total(t) == |column| - multiset(column)[None]
    decreases |column|
  {
    if column == [] then []
    else
      var prefix := column[..|column| - 1];
      var last := column[|column| - 1];
      assert column == prefix + [last];
      var t := Tally(prefix);
      match last
      case None => t
      case Some(x) =>
        var r := Bump(t, x);
        assert forall e :: e in r ==> e.count == multiset(column)[Some(e.key)] by {
          forall e | e in r ensures e.count == multiset(column)[Some(e.key)] {
            if e.key == x && !HasKey(t, x) {
              assert Some(x) !in prefix;
            }
          }
        }
        r
  }

  // ----- Sorting by count -----

  /** Insert `x` before the first entry whose count it reaches, so that earlier-tallied entries stay first among equals. */
  function InsertByCount(x: Entry, t: seq<Entry>): (r: seq<Entry>)
    ensures |r| == |t| + 1
    ensures r[0] == x || (t != [] && r[0] == t[0])
    ensures multiset(r) == multiset(t) + multiset{x}
    ensures NonIncreasing(t) ==> NonIncreasing(r)
    ensures Total(r) == x.count + Total(t)
    ensures forall v :: HasKey(r, v) <==> v == x.key || HasKey(t, v)
    ensures DistinctKeys(t) && !HasKey(t, x.key) ==> DistinctKeys(r)
    decreases |t|
  {
    if t == [] || x.count >= t[0].count then
      var r := [x] + t;
      assert r[1..] == t;
      r
    else
      var rest := InsertByCount(x, t[1..]);
      var r := [t[0]] + rest;
      assert t == [t[0]] + t[1..];
      assert r[1..] == rest;
      r
  }

  /** Insertion sort by count, largest first. */
  function SortByCount(t: seq<Entry>): (r: seq<Entry>)
    ensures |r| == |t|
    ensures multiset(r) == multiset(t)
    ensures NonIncreasing(r)
    ensures Total(r) == Total(t)
    ensures forall v :: HasKey(r, v) <==> HasKey(t, v)
    ensures DistinctKeys(t) ==> DistinctKeys(r)
    decreases |t|
  {
    if t == [] then []
    else
      assert t == [t[0]] + t[1..];
      InsertByCount(t[0], SortByCount(t[1..]))
  }

  // ----- value_counts and head -----

  /**
   * `value_counts` of a column: each present value once, with the number of
   * rows that hold it, largest count first; the counts add up to the number
   * of rows whose cell is not missing.
   */
  function ValueCounts(column: seq<Option<string>>): (vc: seq<Entry>)
    ensures NonIncreasing(vc)
    ensures DistinctKeys(vc)
    ensures forall v :: HasKey(vc, v) <==> Some(v) in column
    ensures forall e :: e in vc ==> e.count == multiset(column)[Some(e.key)] && e.count > 0
    ensures Total(vc) == |column| - multiset(column)[None]
  {
    var t := Tally(column);
    var vc := SortByCount(t);
    MembersHaveKeys(t);
    forall e | e in vc
      ensures e.count == multiset(column)[Some(e.key)] && e.count > 0
    {
      assert e in multiset(t);
      assert Some(e.key) in column;
    }
    vc
  }

  /** `head(n)`: the first `n` entries, or all of them when there are fewer. */
  function Head(vc: seq<Entry>, n: nat): (h: seq<Entry>)
    ensures |h| == if |vc| < n then |vc| else n
    ensures h == vc[..|h|]
  {
    if |vc| < n then vc else vc[..n]
  }

  /** A prefix of a sorted, duplicate-free tally is sorted and duplicate-free, and holds only its entries. */
  lemma {:induction false} PrefixKeepsShape(t: seq<Entry>, k: nat)
    requires k <= |t|
    ensures NonIncreasing(t) ==> NonIncreasing(t[..k])
    ensures DistinctKeys(t) ==> DistinctKeys(t[..k])
    ensures forall v :: HasKey(t[..k], v) ==> HasKey(t, v)
    decreases k
  {
    if k > 0 {
      PrefixKeepsShape(t[1..], k - 1);
      assert t[..k][1..] == t[1..][..k - 1];
    }
  }

  /** In a sorted tally an earlier entry has at least the count of a later one. */
  lemma {:induction false} SortedAt(t: seq<Entry>, i: nat, j: nat)
    requires NonIncreasing(t) && i <= j < |t|
    ensures t[i].count >= t[j].count
    decreases |t|
  {
    if i == 0 && 0 < j {
      SortedAt(t[1..], 0, j - 1);
    } else if 0 < i {
      SortedAt(t[1..], i - 1, j - 1);
    }
  }

  /** The position of a key. */
  lemma {:induction false} KeyPosition(t: seq<Entry>, v: string) returns (i: nat)
    requires HasKey(t, v)
    ensures i < |t| && t[i].key == v
    decreases |t|
  {
    if t[0].key == v {
      i := 0;
    } else {
      var j := KeyPosition(t[1..], v);
      i := j + 1;
    }
  }

  /** The key at a position is a key of every prefix that reaches it. */
  lemma {:induction false} KeyInPrefix(t: seq<Entry>, i: nat, k: nat)
    requires i < k <= |t|
    ensures HasKey(t[..k], t[i].key)
    decreases i
  {
    if i > 0 {
      KeyInPrefix(t[1..], i - 1, k - 1);
      assert t[..k][1..] == t[1..][..k - 1];
    }
  }

  // ----- The charts' data -----

  /**
   * lib.py:107, 115-116: the ten most borrowed titles, or nothing when the
   * view is empty or has no `book_title` column.
   */
  function TopTitles(view: Table): (top: Option<seq<Entry>>)
    ensures top.None? <==> view.rows == [] || BookTitle !in view.columns
    ensures top.Some? ==>
              && |top.value| <= 10
              && NonIncreasing(top.value)
              && DistinctKeys(top.value)
              && forall e :: e in top.value ==> e.count == multiset(TitleColumn(view.rows))[Some(e.key)] && e.count > 0
  {
    if view.rows == [] || BookTitle !in view.columns then None
    else
      var vc := ValueCounts(TitleColumn(view.rows));
      var top := Head(vc, 10);
      PrefixKeepsShape(vc, |top|);
      Some(top)
  }

  /**
   * The chart really shows the top: a title of the view that is left out of
   * the list finds ten entries there, each borrowed at least as often.
   */
  lemma TopTitlesAreTop(view: Table, v: string)
    ensures TopTitles(view).Some? && Some(v) in TitleColumn(view.rows) && !HasKey(TopTitles(view).value, v) ==>
              && |TopTitles(view).value| == 10
              && forall e :: e in TopTitles(view).value ==> e.count >= multiset(TitleColumn(view.rows))[Some(v)]
  {
    var column := TitleColumn(view.rows);
    if TopTitles(view).None? || Some(v) !in column || HasKey(TopTitles(view).value, v) {
      return;
    }
    var vc := ValueCounts(column);
    var top := TopTitles(view).value;
    assert top == Head(vc, 10);
    var k := KeyPosition(vc, v);
    assert vc[k] in vc;
    if k < |top| {
      KeyInPrefix(vc, k, |top|);
      assert false;
    }
    forall e | e in top
      ensures e.count >= multiset(column)[Some(v)]
    {
      var i :| 0 <= i < |top| && top[i] == e;
      SortedAt(vc, i, k);
    }
  }

  /**
   * lib.py:107, 120-126: the distribution of one categorical column (the genre
   * pie, the borrower-type bars), or nothing when the view is empty or lacks
   * the column. Its counts add up to the rows whose cell is not missing.
   */
  function Distribution(view: Table, c: Category): (d: Option<seq<Entry>>)
    ensures d.None? <==> view.rows == [] || Cat(c) !in view.columns
    ensures d.Some? ==>
              && NonIncreasing(d.value)
              && DistinctKeys(d.value)
              && (forall v :: HasKey(d.value, v) <==> Some(v) in CategoryColumn(view.rows, c))
              && (forall e :: e in d.value ==> e.count == multiset(CategoryColumn(view.rows, c))[Some(e.key)])
              && Total(d.value) == |view.rows| - multiset(CategoryColumn(view.rows, c))[None]
  {
    if view.rows == [] || Cat(c) !in view.columns then None
    else Some(ValueCounts(CategoryColumn(view.rows, c)))
  }

  /** When every row of the view has a value in the column, the slices add up to the whole view. */
  lemma DistributionCoversView(view: Table, c: Category)
    requires forall r :: r in view.rows ==> r.CategoryOf(c).Some?
    ensures Distribution(view, c).Some? ==> Total(Distribution(view, c).value) == |view.rows|
  {
  }
}

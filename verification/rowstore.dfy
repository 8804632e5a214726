/** An in-memory stand-in for the event-query service's raw query primitive:
    it keeps the rows that fall in the time window and pass the conditions
    and filter keys, sorts them by the requested order, and returns the first
    `limit` of them, or an error when the service is failing. */
module RowStore {
  import opened Wrappers
  import opened Conditions

  /** `'timestamp'` sorts ascending, `'-timestamp'` descending. */
  datatype Direction = Ascending | Descending

  datatype OrderKey = OrderKey(column: Column, direction: Direction)

  /** The arguments of one raw query. */
  datatype Query = Query(
    selectedColumns: seq<Column>,
    start: int,
    end: int,
    conditions: seq<Condition>,
    filterKeys: Option<FilterKeys>,
    orderBy: seq<OrderKey>,
    limit: nat,
    referrer: string)

  /** The result dictionary: an `'error'` entry, or the `'data'` rows. */
  datatype RawResult = RawError(message: string) | RawData(data: seq<Row>)

  datatype Store = Available(rows: seq<Row>) | Failing(message: string)

  /** The row lies in the inclusive window and passes every filter. */
  predicate Matches(row: Row, q: Query) {
    && q.start <= row.timestamp <= q.end
    && SatisfiesAll(row, q.conditions)
    && PassesOptionalFilterKeys(row, q.filterKeys)
  }

  /** The matching rows, in store order. */
  function Matching(rows: seq<Row>, q: Query): (r: seq<Row>)
    ensures forall x :: x in r ==> x in rows && Matches(x, q)
    ensures forall x :: x in rows && Matches(x, q) ==> x in r
    ensures |r| <= |rows|
  {
    if |rows| == 0 then []
    else
      var rest := Matching(rows[1..], q);
      assert forall x :: x in rows[1..] ==> x in rows;
      assert forall x :: x in rows ==> x == rows[0] || x in rows[1..];
      if Matches(rows[0], q) then [rows[0]] + rest else rest
  }

  // ---------------------------------------------------------------------
  // Ordering rows by a list of order keys

  /** A missing column sorts before any value. */
  function OptCompare(a: Option<Value>, b: Option<Value>): int {
    match (a, b)
    case (None, None) => 0
    case (None, Some(_)) => -1
    case (Some(_), None) => 1
    case (Some(x), Some(y)) => Compare(x, y)
  }

  lemma OptCompareProperties(a: Option<Value>, b: Option<Value>)
    ensures OptCompare(a, b) == 0 <==> a == b
    ensures OptCompare(a, b) == -OptCompare(b, a)
  {
    if a.Some? && b.Some? {
      CompareZeroIffEqual(a.value, b.value);
      CompareAntisymmetric(a.value, b.value);
    }
  }

  lemma OptCompareTransitive(a: Option<Value>, b: Option<Value>, c: Option<Value>)
    requires OptCompare(a, b) < 0 && OptCompare(b, c) < 0
    ensures OptCompare(a, c) < 0
  {
    if a.Some? && b.Some? && c.Some? {
      CompareTransitive(a.value, b.value, c.value);
    }
  }

  function KeyCompare(k: OrderKey, a: Row, b: Row): int {
    var c := OptCompare(ColumnValue(a, k.column), ColumnValue(b, k.column));
    if k.direction == Ascending then c else -c
  }

  lemma KeyCompareProperties(k: OrderKey, a: Row, b: Row)
    ensures KeyCompare(k, a, b) == 0 <==> ColumnValue(a, k.column) == ColumnValue(b, k.column)
    ensures KeyCompare(k, a, b) == -KeyCompare(k, b, a)
  {
    OptCompareProperties(ColumnValue(a, k.column), ColumnValue(b, k.column));
  }

  lemma KeyCompareTransitive(k: OrderKey, a: Row, b: Row, c: Row)
    requires KeyCompare(k, a, b) < 0 && KeyCompare(k, b, c) < 0
    ensures KeyCompare(k, a, c) < 0
  {
    var va, vb, vc := ColumnValue(a, k.column), ColumnValue(b, k.column), ColumnValue(c, k.column);
    if k.direction == Ascending {
      OptCompareTransitive(va, vb, vc);
    } else {
      OptCompareProperties(va, vb);
      OptCompareProperties(vb, vc);
      OptCompareProperties(va, vc);
      OptCompareTransitive(vc, vb, va);
    }
  }

  /** Lexicographic comparison over the order keys, the first key deciding. */
  function RowCompare(keys: seq<OrderKey>, a: Row, b: Row): int {
    if |keys| == 0 then 0
    else
      var c := KeyCompare(keys[0], a, b);
      if c != 0 then c else RowCompare(keys[1..], a, b)
  }

  lemma {:induction false} RowCompareAntisymmetric(keys: seq<OrderKey>, a: Row, b: Row)
    ensures RowCompare(keys, a, b) == -RowCompare(keys, b, a)
  {
    if |keys| > 0 {
      KeyCompareProperties(keys[0], a, b);
      RowCompareAntisymmetric(keys[1..], a, b);
    }
  }

  lemma RowCompareReflexive(keys: seq<OrderKey>, a: Row)
    ensures RowCompare(keys, a, a) == 0
  {
    RowCompareAntisymmetric(keys, a, a);
  }

  /** "Sorts no later than" is transitive. */
  lemma {:induction false} RowCompareTransitive(keys: seq<OrderKey>, a: Row, b: Row, c: Row)
    requires RowCompare(keys, a, b) <= 0 && RowCompare(keys, b, c) <= 0
    ensures RowCompare(keys, a, c) <= 0
  {
    if |keys| > 0 {
      var k := keys[0];
      KeyCompareProperties(k, a, b);
      KeyCompareProperties(k, b, c);
      KeyCompareProperties(k, a, c);
      var ab, bc := KeyCompare(k, a, b), KeyCompare(k, b, c);
      if ab < 0 && bc < 0 {
        KeyCompareTransitive(k, a, b, c);
      } else if ab == 0 && bc == 0 {
        RowCompareTransitive(keys[1..], a, b, c);
      }
    }
  }

  // ---------------------------------------------------------------------
  // Sorting

  predicate Sorted(keys: seq<OrderKey>, s: seq<Row>) {
    forall i, j :: 0 <= i < j < |s| ==> RowCompare(keys, s[i], s[j]) <= 0
  }

  /** Inserts `x` after every element that does not sort after it. */
  function Insert(keys: seq<OrderKey>, x: Row, s: seq<Row>): (r: seq<Row>)
    ensures multiset(r) == multiset(s) + multiset{x}
    ensures Sorted(keys, s) ==> Sorted(keys, r)
  {
    if |s| == 0 then [x]
    else if RowCompare(keys, x, s[0]) < 0 then
      InsertFront(keys, x, s);
      [x] + s
    else
      var rest := Insert(keys, x, s[1..]);
      assert s == [s[0]] + s[1..];
      RowCompareAntisymmetric(keys, x, s[0]);
      PrependSorted(keys, s, x, rest);
      [s[0]] + rest
  }

  lemma InsertFront(keys: seq<OrderKey>, x: Row, s: seq<Row>)
    requires |s| > 0 && RowCompare(keys, x, s[0]) < 0
    ensures Sorted(keys, s) ==> Sorted(keys, [x] + s)
  {
    if !Sorted(keys, s) {
      return;
    }
    var r := [x] + s;
    forall i, j | 0 <= i < j < |r|
      ensures RowCompare(keys, r[i], r[j]) <= 0
    {
      if i == 0 && j > 1 {
        RowCompareTransitive(keys, x, s[0], s[j - 1]);
      }
    }
  }

  /** In a sorted sequence the head sorts no later than anything after it. */
  lemma HeadBoundsTail(keys: seq<OrderKey>, s: seq<Row>, y: Row)
    requires |s| > 0 && Sorted(keys, s) && y in multiset(s[1..])
    ensures RowCompare(keys, s[0], y) <= 0
  {
    var k :| 0 <= k < |s[1..]| && s[1..][k] == y;
    assert s[k + 1] == y;
  }

  lemma PrependSorted(keys: seq<OrderKey>, s: seq<Row>, x: Row, rest: seq<Row>)
    requires |s| > 0 && RowCompare(keys, s[0], x) <= 0
    requires multiset(rest) == multiset(s[1..]) + multiset{x}
    requires Sorted(keys, s[1..]) ==> Sorted(keys, rest)
    ensures Sorted(keys, s) ==> Sorted(keys, [s[0]] + rest)
  {
    if !Sorted(keys, s) {
      return;
    }
    assert Sorted(keys, s[1..]);
    forall j | 0 <= j < |rest|
      ensures RowCompare(keys, s[0], rest[j]) <= 0
    {
      var y := rest[j];
      assert y in multiset(rest);
      if y != x {
        HeadBoundsTail(keys, s, y);
      }
    }
    SortedCons(keys, s[0], rest);
  }

  /** A head that sorts no later than every element of a sorted tail. */
  lemma SortedCons(keys: seq<OrderKey>, h: Row, rest: seq<Row>)
    requires Sorted(keys, rest)
    requires forall j :: 0 <= j < |rest| ==> RowCompare(keys, h, rest[j]) <= 0
    ensures Sorted(keys, [h] + rest)
  {
    var r := [h] + rest;
    forall i, j | 0 <= i < j < |r|
      ensures RowCompare(keys, r[i], r[j]) <= 0
    {
      assert r[j] == rest[j - 1];
      if i > 0 {
        assert r[i] == rest[i - 1];
      }
    }
  }

  /** Insertion sort: a sorted permutation of `s`. */
  function Sort(keys: seq<OrderKey>, s: seq<Row>): (r: seq<Row>)
    ensures multiset(r) == multiset(s)
    ensures Sorted(keys, r)
  {
    if |s| == 0 then []
    else
      assert s == s[..|s| - 1] + [s[|s| - 1]];
      Insert(keys, s[|s| - 1], Sort(keys, s[..|s| - 1]))
  }

  function Take(s: seq<Row>, n: nat): (r: seq<Row>)
    ensures |r| == if n < |s| then n else |s|
    ensures r == s[..|r|]
  {
    if n < |s| then s[..n] else s
  }

  /** `raw_query`: the first `limit` matching rows in the requested order. */
  function RawQuery(store: Store, q: Query): (r: RawResult)
    ensures store.Failing? <==> r.RawError?
    ensures r.RawData? ==> |r.data| <= q.limit && Sorted(q.orderBy, r.data)
    ensures r.RawData? ==> forall x :: x in r.data ==> x in store.rows && Matches(x, q)
    ensures r.RawData? ==> (|r.data| == 0 <==> q.limit == 0 || forall x :: x in store.rows ==> !Matches(x, q))
    ensures r.RawData? && |r.data| > 0 ==>
      forall x :: x in store.rows && Matches(x, q) ==> RowCompare(q.orderBy, r.data[0], x) <= 0
  {
    match store
    case Failing(m) => RawError(m)
    case Available(rows) =>
      var data := Take(Sort(q.orderBy, Matching(rows, q)), q.limit);
      RawDataFacts(rows, q, data);
      RawData(data)
  }

  lemma RawDataFacts(rows: seq<Row>, q: Query, data: seq<Row>)
    requires data == Take(Sort(q.orderBy, Matching(rows, q)), q.limit)
    ensures |data| <= q.limit && Sorted(q.orderBy, data)
    ensures forall x :: x in data ==> x in rows && Matches(x, q)
    ensures |data| == 0 <==> q.limit == 0 || forall x :: x in rows ==> !Matches(x, q)
    ensures |data| > 0 ==> forall x :: x in rows && Matches(x, q) ==> RowCompare(q.orderBy, data[0], x) <= 0
  {
    var matching := Matching(rows, q);
    var sorted := Sort(q.orderBy, matching);
    SortedFirstIsLeast(q.orderBy, matching, sorted);
    SortedPrefix(q.orderBy, sorted, |data|);
    if |matching| > 0 {
      assert matching[0] in rows && Matches(matching[0], q);
    }
  }

  /** A prefix of a sorted sequence is sorted, starts with the same element,
      and holds nothing the sequence does not. */
  lemma SortedPrefix(keys: seq<OrderKey>, s: seq<Row>, n: nat)
    requires Sorted(keys, s) && n <= |s|
    ensures Sorted(keys, s[..n])
    ensures forall x :: x in s[..n] ==> x in s
    ensures n > 0 ==> s[..n][0] == s[0]
  {
    forall x | x in s[..n]
      ensures x in s
    {
      var i :| 0 <= i < n && s[..n][i] == x;
      assert x == s[i];
    }
  }

  lemma SortedFirstIsLeast(keys: seq<OrderKey>, s: seq<Row>, sorted: seq<Row>)
    requires multiset(sorted) == multiset(s) && Sorted(keys, sorted)
    ensures |sorted| == |s|
    ensures forall x :: x in s ==> x in sorted
    ensures forall x :: x in sorted ==> x in s
    ensures |sorted| > 0 ==> forall x :: x in s ==> RowCompare(keys, sorted[0], x) <= 0
  {
    assert |sorted| == |multiset(sorted)| == |multiset(s)| == |s|;
    assert forall x :: x in s ==> x in multiset(s);
    assert forall x :: x in sorted ==> x in multiset(sorted);
    if |sorted| > 0 {
      forall x | x in s
        ensures RowCompare(keys, sorted[0], x) <= 0
      {
        assert x in multiset(sorted);
        var j :| 0 <= j < |sorted| && sorted[j] == x;
        if j == 0 {
          RowCompareReflexive(keys, x);
        }
      }
    }
  }
}

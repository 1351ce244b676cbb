/**
 * Exact-arithmetic models of the pandas operations the dashboard is built from:
 * numeric coercion, column arithmetic, rounding, boolean-mask selection,
 * `unique`, `value_counts`, `nlargest`, `sort_values` and a left `merge`.
 * Floating point is replaced by `real`; a cell that pandas would hold as
 * NaN, +inf or -inf is a separate constructor of `Value`.
 */
module Frames {

  datatype Option<T> = None | Some(value: T)

  /** One pandas cell: a finite number, +infinity, -infinity, a missing value
      (NaN), or a string held in an `object` column. */
  datatype Value = Num(v: real) | Inf | NegInf | NaN | Str(s: string)

  predicate IsNumeric(x: Value) { !x.Str? }

  predicate NumericColumn(col: seq<Value>) {
    forall i :: 0 <= i < |col| ==> IsNumeric(col[i])
  }

  // ---------------------------------------------------------------------
  // Column arithmetic
  // ---------------------------------------------------------------------

  /** What the library's number syntax reads from a string: a finite number,
      or an infinity ("inf", "-Infinity", ...). */
  datatype Number = Finite(v: real) | PlusInfinity | MinusInfinity

  /** The library's string-to-number reader; None when the string is not a number. */
  type Parser = string -> Option<Number>

  /** `pd.to_numeric(x, errors='coerce')`: numbers stay, a string is read by
      `parse`, and what does not parse becomes NaN. */
  function ToNumeric(x: Value, parse: Parser): (r: Value)
    ensures IsNumeric(r)
    ensures IsNumeric(x) ==> r == x
    ensures x.Str? ==> (r.NaN? <==> parse(x.s).None?)
    ensures x.Str? && parse(x.s) == Some(PlusInfinity) ==> r == Inf
    ensures x.Str? && parse(x.s) == Some(MinusInfinity) ==> r == NegInf
    ensures x.Str? && parse(x.s).Some? && parse(x.s).value.Finite? ==> r == Num(parse(x.s).value.v)
  {
    match x
    case Str(s) =>
      (match parse(s)
       case Some(Finite(v)) => Num(v)
       case Some(PlusInfinity) => Inf
       case Some(MinusInfinity) => NegInf
       case None => NaN)
    case _ => x
  }

  function ToNumericColumn(col: seq<Value>, parse: Parser): (r: seq<Value>)
    ensures |r| == |col| && NumericColumn(r)
    ensures forall i :: 0 <= i < |r| ==> r[i] == ToNumeric(col[i], parse)
  {
    seq(|col|, i requires 0 <= i < |col| => ToNumeric(col[i], parse))
  }

  /** Coercing a column that is already numeric changes nothing, so a second coercion is harmless. */
  lemma ToNumericColumnIdempotent(col: seq<Value>, parse: Parser)
    ensures ToNumericColumn(ToNumericColumn(col, parse), parse) == ToNumericColumn(col, parse)
  {
  }

  /** Python's `str * n`: the string written n times, that is n * |s| characters
      that begin with s and repeat every |s| characters. */
  function Repeat(s: string, n: nat): (r: string)
    ensures |r| == n * |s|
    ensures n > 0 ==> r[..|s|] == s
    ensures forall k :: 0 <= k < |r| - |s| ==> r[k + |s|] == r[k]
  {
    if n == 0 then ""
    else
      var rest := Repeat(s, n - 1);
      var r := s + rest;
      assert forall k :: 0 <= k < |r| - |s| ==> r[k + |s|] == r[k] by {
        forall k | 0 <= k < |r| - |s| ensures r[k + |s|] == r[k] {
          assert r[k + |s|] == rest[k];
          if k < |s| {
            assert n - 1 > 0;
            assert rest[..|s|][k] == s[k];
          } else {
            assert r[k] == rest[k - |s|];
          }
        }
      }
      r
  }

  /** `column * 1000` on one cell. A number is scaled; the infinities and NaN stay;
      a string in an object column is repeated a thousand times. */
  function Times1000(x: Value): (r: Value)
    ensures x.Num? <==> r.Num?
    ensures x.Num? ==> r.v == 1000.0 * x.v
    ensures IsNumeric(x) <==> IsNumeric(r)
    ensures IsNumeric(x) && !x.Num? ==> r == x
    ensures x.Str? ==> r.Str? && |r.s| == 1000 * |x.s| && r.s[..|x.s|] == x.s
    ensures x.Str? ==> forall k :: 0 <= k < |r.s| - |x.s| ==> r.s[k + |x.s|] == r.s[k]
  {
    match x
    case Num(v) => Num(1000.0 * v)
    case Inf => Inf
    case NegInf => NegInf
    case NaN => NaN
    case Str(s) => Str(Repeat(s, 1000))
  }

  function ScaleColumn(col: seq<Value>): (r: seq<Value>)
    ensures |r| == |col|
    ensures forall i :: 0 <= i < |r| ==> r[i] == Times1000(col[i])
  {
    seq(|col|, i requires 0 <= i < |col| => Times1000(col[i]))
  }

  /** Scaling is not idempotent: a second application changes a cell unless the
      cell is zero, an infinity, missing or the empty string. */
  lemma Times1000TwiceDiffers(x: Value)
    ensures Times1000(Times1000(x)) == Times1000(x) <==>
      (x == Num(0.0) || x.Inf? || x.NegInf? || x.NaN? || x == Str(""))
  {
  }

  /** Two scalings multiply a number by one million. */
  lemma Times1000Twice(v: real)
    ensures Times1000(Times1000(Num(v))) == Num(1000000.0 * v)
  {
  }

  /** `fillna(0)` on one cell. */
  function FillNa(x: Value): (r: Value)
    ensures !r.NaN?
    ensures !x.NaN? ==> r == x
    ensures x.NaN? ==> r == Num(0.0)
  {
    if x.NaN? then Num(0.0) else x
  }

  // ---------------------------------------------------------------------
  // Rounding (numpy rounds half to even)
  // ---------------------------------------------------------------------

  /** `round(x)`: the nearest integer, ties to the even neighbour. */
  function RoundHalfEven(x: real): (r: int)
    ensures x - 0.5 <= r as real <= x + 0.5
    ensures (r as real == x - 0.5 || r as real == x + 0.5) ==> r % 2 == 0
  {
    var f := x.Floor;
    var d := x - f as real;
    if d < 0.5 then f
    else if d > 0.5 then f + 1
    else if f % 2 == 0 then f
    else f + 1
  }

  /** `round(x, 3)`: a multiple of 1/1000 within half a thousandth of x. */
  function Round3(x: real): (r: real)
    ensures x - 0.0005 <= r <= x + 0.0005
    ensures (r * 1000.0).Floor as real == r * 1000.0
  {
    var k := RoundHalfEven(x * 1000.0);
    assert (k as real / 1000.0) * 1000.0 == k as real;
    k as real / 1000.0
  }

  // ---------------------------------------------------------------------
  // The order `sort_values(ascending=False)` uses: +inf first, numbers by
  // value, then -inf, missing values last.
  // ---------------------------------------------------------------------

  function Rank(x: Value): nat {
    match x
    case Inf => 3
    case Num(_) => 2
    case NegInf => 1
    case _ => 0
  }

  /** x comes no later than y in a descending sort. */
  predicate AtLeast(x: Value, y: Value) {
    if Rank(x) != Rank(y) then Rank(x) > Rank(y)
    else x.Num? ==> x.v >= y.v
  }

  predicate SortedDesc<T>(s: seq<T>, key: T -> Value) {
    forall i, j :: 0 <= i < j < |s| ==> AtLeast(key(s[i]), key(s[j]))
  }

  lemma AtLeastTotal(x: Value, y: Value)
    ensures AtLeast(x, y) || AtLeast(y, x)
  {
  }

  lemma AtLeastTransitive(x: Value, y: Value, z: Value)
    requires AtLeast(x, y) && AtLeast(y, z)
    ensures AtLeast(x, z)
  {
  }

  /** Stable insertion: x goes in front of the first element it is at least. */
  function Insert<T>(x: T, s: seq<T>, key: T -> Value): (r: seq<T>)
    ensures |r| == |s| + 1
    ensures multiset(r) == multiset(s) + multiset{x}
  {
    if s == [] then [x]
    else if AtLeast(key(x), key(s[0])) then [x] + s
    else
      assert s == [s[0]] + s[1..];
      [s[0]] + Insert(x, s[1..], key)
  }

  /** A head that is at least every element of a sorted tail keeps the whole sorted. */
  lemma ConsSorted<T>(h: T, t: seq<T>, key: T -> Value)
    requires SortedDesc(t, key)
    requires forall k :: 0 <= k < |t| ==> AtLeast(key(h), key(t[k]))
    ensures SortedDesc([h] + t, key)
  {
    var r := [h] + t;
    forall i, j | 0 <= i < j < |r| ensures AtLeast(key(r[i]), key(r[j])) {
      assert r[j] == t[j - 1];
      if i > 0 {
        assert r[i] == t[i - 1];
      }
    }
  }

  lemma {:induction false} InsertSorted<T>(x: T, s: seq<T>, key: T -> Value)
    requires SortedDesc(s, key)
    ensures SortedDesc(Insert(x, s, key), key)
  {
    if s == [] {
    } else if AtLeast(key(x), key(s[0])) {
      forall k | 0 <= k < |s| ensures AtLeast(key(x), key(s[k])) {
        if k > 0 {
          AtLeastTransitive(key(x), key(s[0]), key(s[k]));
        }
      }
      ConsSorted(x, s, key);
    } else {
      var t := Insert(x, s[1..], key);
      InsertSorted(x, s[1..], key);
      InsertAfterHead(x, s, key);
      ConsSorted(s[0], t, key);
    }
  }

  /** When x goes after the head of a sorted sequence, the head is at least
      everything the insertion into the tail produces. */
  lemma InsertAfterHead<T>(x: T, s: seq<T>, key: T -> Value)
    requires SortedDesc(s, key) && s != []
    requires !AtLeast(key(x), key(s[0]))
    ensures forall k :: 0 <= k < |Insert(x, s[1..], key)| ==>
      AtLeast(key(s[0]), key(Insert(x, s[1..], key)[k]))
  {
    var t := Insert(x, s[1..], key);
    forall k | 0 <= k < |t| ensures AtLeast(key(s[0]), key(t[k])) {
      assert t[k] in multiset(t);
      if t[k] == x {
        AtLeastTotal(key(x), key(s[0]));
      } else {
        assert t[k] in multiset(s[1..]);
        var m :| 0 <= m < |s[1..]| && s[1..][m] == t[k];
        assert s[m + 1] == t[k];
      }
    }
  }

  /** `sort_values(ascending=False)`; ties keep their input order. */
  function SortDesc<T>(s: seq<T>, key: T -> Value): (r: seq<T>)
    ensures |r| == |s|
    ensures multiset(r) == multiset(s)
    ensures SortedDesc(r, key)
  {
    if s == [] then []
    else
      assert s == [s[0]] + s[1..];
      var t := SortDesc(s[1..], key);
      InsertSorted(s[0], t, key);
      Insert(s[0], t, key)
  }

  // ---------------------------------------------------------------------
  // Sums
  // ---------------------------------------------------------------------

  function SumOf<T>(s: seq<T>, f: T -> int): int {
    if s == [] then 0 else f(s[0]) + SumOf(s[1..], f)
  }

  lemma {:induction false} InsertSum<T>(x: T, s: seq<T>, key: T -> Value, f: T -> int)
    ensures SumOf(Insert(x, s, key), f) == f(x) + SumOf(s, f)
  {
    if s != [] && !AtLeast(key(x), key(s[0])) {
      InsertSum(x, s[1..], key, f);
    }
  }

  /** Sorting does not change a column total. */
  lemma {:induction false} SortSum<T>(s: seq<T>, key: T -> Value, f: T -> int)
    ensures SumOf(SortDesc(s, key), f) == SumOf(s, f)
  {
    if s != [] {
      SortSum(s[1..], key, f);
      InsertSum(s[0], SortDesc(s[1..], key), key, f);
    }
  }

  /** Two sequences whose elements agree position by position have the same total. */
  lemma {:induction false} SumOfPointwise<T, U>(a: seq<T>, f: T -> int, b: seq<U>, g: U -> int)
    requires |a| == |b|
    requires forall i :: 0 <= i < |a| ==> f(a[i]) == g(b[i])
    ensures SumOf(a, f) == SumOf(b, g)
  {
    if a != [] {
      SumOfPointwise(a[1..], f, b[1..], g);
    }
  }

  // ---------------------------------------------------------------------
  // Distinct keys
  // ---------------------------------------------------------------------

  predicate NoDup<T(==)>(s: seq<T>) {
    forall i, j :: 0 <= i < j < |s| ==> s[i] != s[j]
  }

  /** No two elements share a key. */
  predicate DistinctBy<T, K(==)>(s: seq<T>, f: T -> K) {
    forall i, j :: 0 <= i < j < |s| ==> f(s[i]) != f(s[j])
  }

  lemma {:induction false} InsertDistinctBy<T, K>(x: T, s: seq<T>, key: T -> Value, f: T -> K)
    requires DistinctBy(s, f)
    requires forall y :: y in s ==> f(y) != f(x)
    ensures DistinctBy(Insert(x, s, key), f)
  {
    if s != [] && !AtLeast(key(x), key(s[0])) {
      assert s == [s[0]] + s[1..];
      InsertDistinctBy(x, s[1..], key, f);
      var t := Insert(x, s[1..], key);
      forall y | y in t ensures f(y) != f(s[0]) {
        assert y in multiset(t);
      }
    }
  }

  /** Sorting keeps keys distinct. */
  lemma {:induction false} SortDistinctBy<T, K>(s: seq<T>, key: T -> Value, f: T -> K)
    requires DistinctBy(s, f)
    ensures DistinctBy(SortDesc(s, key), f)
  {
    if s != [] {
      assert s == [s[0]] + s[1..];
      SortDistinctBy(s[1..], key, f);
      var t := SortDesc(s[1..], key);
      forall y | y in t ensures f(y) != f(s[0]) {
        assert y in multiset(t);
      }
      InsertDistinctBy(s[0], t, key, f);
    }
  }

  /** `Series.unique()`: each value of the column, once. */
  function Distinct<T(==,!new)>(s: seq<T>): (r: seq<T>)
    ensures NoDup(r)
    ensures forall x :: x in r <==> x in s
    ensures |r| <= |s|
  {
    if s == [] then []
    else
      var d := Distinct(s[..|s| - 1]);
      assert s == s[..|s| - 1] + [s[|s| - 1]];
      if s[|s| - 1] in d then d else d + [s[|s| - 1]]
  }

  // ---------------------------------------------------------------------
  // Selection by a boolean mask
  // ---------------------------------------------------------------------

  /** r is s with some elements left out, the rest in their original order. */
  predicate SubsequenceOf<T(==)>(r: seq<T>, s: seq<T>)
    decreases |s|
  {
    if r == [] then true
    else if s == [] then false
    else (r[0] == s[0] && SubsequenceOf(r[1..], s[1..])) || SubsequenceOf(r, s[1..])
  }

  lemma {:induction false} SubsequenceOfSelf<T>(s: seq<T>)
    ensures SubsequenceOf(s, s)
    decreases |s|
  {
    if s != [] {
      SubsequenceOfSelf(s[1..]);
    }
  }

  /** `s[mask]`: the old rows that satisfy p, all of them, in their old order. */
  ghost predicate IsSelection<T(!new)>(r: seq<T>, s: seq<T>, p: T -> bool) {
    && SubsequenceOf(r, s)
    && forall x :: multiset(r)[x] == if p(x) then multiset(s)[x] else 0
  }

  /** Two masks that agree on every row of the table select the same rows. */
  lemma SelectionSameMask<T(!new)>(r: seq<T>, s: seq<T>, p: T -> bool, q: T -> bool)
    requires IsSelection(r, s, p)
    requires forall x :: x in s ==> p(x) == q(x)
    ensures IsSelection(r, s, q)
  {
    forall x ensures multiset(r)[x] == if q(x) then multiset(s)[x] else 0 {
      if x !in s {
        assert multiset(s)[x] == 0;
      }
    }
  }

  /** A mask that is false on every row selects nothing. */
  lemma EmptySelection<T(!new)>(r: seq<T>, s: seq<T>, p: T -> bool)
    requires IsSelection(r, s, p)
    requires forall x :: x in s ==> !p(x)
    ensures r == []
  {
    assert forall x :: multiset(r)[x] == 0;
    assert multiset(r) == multiset{};
  }

  function Filter<T(==,!new)>(s: seq<T>, p: T -> bool): (r: seq<T>)
    ensures IsSelection(r, s, p)
    ensures forall x :: x in r <==> x in s && p(x)
    ensures |r| <= |s|
  {
    if s == [] then []
    else
      assert s == [s[0]] + s[1..];
      var t := Filter(s[1..], p);
      assert t != [] ==> SubsequenceOf(t, s);
      if p(s[0]) then [s[0]] + t else t
  }

  /** A mask that is true on every row keeps the whole table. */
  lemma {:induction false} FilterAll<T(!new)>(s: seq<T>, p: T -> bool)
    requires forall x :: x in s ==> p(x)
    ensures Filter(s, p) == s
  {
    if s != [] {
      assert s[0] in s;
      assert forall x :: x in s[1..] ==> x in s;
      FilterAll(s[1..], p);
      assert s == [s[0]] + s[1..];
    }
  }

  function Take<T>(s: seq<T>, n: nat): (r: seq<T>)
    ensures |r| == if |s| < n then |s| else n
    ensures r == s[..|r|]
  {
    if |s| <= n then s else s[..n]
  }

  // ---------------------------------------------------------------------
  // value_counts
  // ---------------------------------------------------------------------

  /** One row of `value_counts().reset_index()`. */
  datatype KeyCount = KeyCount(key: string, count: nat)

  function KeyOf(kc: KeyCount): string { kc.key }
  function CountOf(kc: KeyCount): int { kc.count }
  function CountKey(kc: KeyCount): Value { Num(kc.count as real) }

  /** The number of occurrences of each value of d among keys. */
  function CountsOver(d: seq<string>, keys: seq<string>): (r: seq<KeyCount>)
    ensures |r| == |d|
    ensures forall i :: 0 <= i < |r| ==> r[i] == KeyCount(d[i], multiset(keys)[d[i]])
  {
    if d == [] then [] else [KeyCount(d[0], multiset(keys)[d[0]])] + CountsOver(d[1..], keys)
  }

  lemma {:induction false} CountsOverAppendKey(d: seq<string>, keys: seq<string>, x: string)
    requires NoDup(d)
    ensures SumOf(CountsOver(d, keys + [x]), CountOf)
         == SumOf(CountsOver(d, keys), CountOf) + (if x in d then 1 else 0)
  {
    if d != [] {
      assert multiset(keys + [x]) == multiset(keys) + multiset{x};
      assert d == [d[0]] + d[1..];
      assert d[0] == x ==> x !in d[1..];
      CountsOverAppendKey(d[1..], keys, x);
    }
  }

  lemma {:induction false} CountsOverAppendValue(d: seq<string>, keys: seq<string>, y: string)
    ensures SumOf(CountsOver(d + [y], keys), CountOf)
         == SumOf(CountsOver(d, keys), CountOf) + multiset(keys)[y]
  {
    if d == [] {
      assert d + [y] == [y];
    } else {
      assert (d + [y])[1..] == d[1..] + [y];
      CountsOverAppendValue(d[1..], keys, y);
    }
  }

  /** Unsorted tally: one row per distinct value, in first-seen order. */
  function Tally(keys: seq<string>): seq<KeyCount> {
    CountsOver(Distinct(keys), keys)
  }

  /** The tally accounts for every row exactly once. */
  lemma {:induction false} TallySum(keys: seq<string>)
    ensures SumOf(Tally(keys), CountOf) == |keys|
  {
    if keys != [] {
      var init, x := keys[..|keys| - 1], keys[|keys| - 1];
      assert keys == init + [x];
      TallySum(init);
      var d := Distinct(init);
      CountsOverAppendKey(d, init, x);
      if x !in d {
        CountsOverAppendValue(d, keys, x);
        CountsOverAppendKey(d, init, x);
        assert multiset(keys)[x] == multiset(init)[x] + 1;
        assert multiset(init)[x] == 0;
      }
    }
  }

  /** `Series.value_counts()`: counts per distinct value, largest count first. */
  function ValueCounts(keys: seq<string>): (r: seq<KeyCount>)
    ensures multiset(r) == multiset(Tally(keys))
    ensures SortedDesc(r, CountKey)
  {
    SortDesc(Tally(keys), CountKey)
  }

  lemma TallyDistinctKeys(keys: seq<string>)
    ensures DistinctBy(Tally(keys), KeyOf)
  {
  }

  /** Every row of `value_counts` is a row of the tally: a value of the column with its count. */
  lemma ValueCountsRowOrigin(keys: seq<string>, i: nat)
    requires i < |ValueCounts(keys)|
    ensures var row := ValueCounts(keys)[i];
      row.key in keys && row.count == multiset(keys)[row.key] && row.count >= 1
  {
    var t := Tally(keys);
    var r := ValueCounts(keys);
    assert r[i] in multiset(r);
    assert r[i] in t;
    var m :| 0 <= m < |t| && t[m] == r[i];
    assert Distinct(keys)[m] in Distinct(keys);
  }

  /** Every value of the column has its row in `value_counts`. */
  lemma ValueCountsCovers(keys: seq<string>, k: string)
    requires k in keys
    ensures exists i :: 0 <= i < |ValueCounts(keys)| && ValueCounts(keys)[i].key == k
  {
    var t := Tally(keys);
    var r := ValueCounts(keys);
    var d := Distinct(keys);
    var m :| 0 <= m < |d| && d[m] == k;
    assert t[m] in multiset(r);
    var i :| 0 <= i < |r| && r[i] == t[m];
  }

  /** `value_counts` has one row per distinct value, no key twice, and each row's
      count is the number of occurrences of its key, so at least one. */
  lemma ValueCountsRows(keys: seq<string>)
    ensures var r := ValueCounts(keys);
      && |r| == |Distinct(keys)|
      && DistinctBy(r, KeyOf)
      && (forall k :: k in keys <==> exists i :: 0 <= i < |r| && r[i].key == k)
      && (forall i :: 0 <= i < |r| ==> r[i].count == multiset(keys)[r[i].key] && r[i].count >= 1)
  {
    var r := ValueCounts(keys);
    TallyDistinctKeys(keys);
    SortDistinctBy(Tally(keys), CountKey, KeyOf);
    forall i | 0 <= i < |r| ensures r[i].key in keys && r[i].count == multiset(keys)[r[i].key] && r[i].count >= 1 {
      ValueCountsRowOrigin(keys, i);
    }
    forall k | k in keys ensures exists i :: 0 <= i < |r| && r[i].key == k {
      ValueCountsCovers(keys, k);
    }
  }

  /** The counts of `value_counts` add up to the number of rows. */
  lemma ValueCountsSum(keys: seq<string>)
    ensures SumOf(ValueCounts(keys), CountOf) == |keys|
  {
    TallySum(keys);
    SortSum(Tally(keys), CountKey, CountOf);
  }

  /** `value_counts` lists the largest count first. */
  lemma ValueCountsDescending(keys: seq<string>)
    ensures var r := ValueCounts(keys);
      forall i, j :: 0 <= i < j < |r| ==> r[i].count >= r[j].count
  {
  }

  // ---------------------------------------------------------------------
  // Left merge on a string key
  // ---------------------------------------------------------------------

  /** One row of a left merge: the left row and the matched right row, or None
      when the right side has no row with that key (its columns are then NaN). */
  datatype Joined<L, R> = Joined(left: L, right: Option<R>)

  predicate UniqueKeys<R>(right: seq<R>, rkey: R -> string) {
    DistinctBy(right, rkey)
  }

  /** The right rows whose key is k, in their order. */
  function Matches<R(!new)>(right: seq<R>, k: string, rkey: R -> string): (r: seq<R>)
    ensures forall y :: y in r <==> y in right && rkey(y) == k
    ensures IsSelection(r, right, (y: R) => rkey(y) == k)
  {
    if right == [] then []
    else
      assert right == [right[0]] + right[1..];
      var rest := Matches(right[1..], k, rkey);
      if rkey(right[0]) == k then [right[0]] + rest else rest
  }

  lemma {:induction false} NoMatches<R(!new)>(right: seq<R>, k: string, rkey: R -> string)
    requires forall y :: y in right ==> rkey(y) != k
    ensures Matches(right, k, rkey) == []
  {
    if right != [] {
      assert right == [right[0]] + right[1..];
      NoMatches(right[1..], k, rkey);
    }
  }

  lemma {:induction false} MatchesUnique<R(!new)>(right: seq<R>, k: string, rkey: R -> string)
    requires UniqueKeys(right, rkey)
    ensures |Matches(right, k, rkey)| <= 1
  {
    if right != [] {
      assert right == [right[0]] + right[1..];
      MatchesUnique(right[1..], k, rkey);
      var m := Matches(right[1..], k, rkey);
      if rkey(right[0]) == k {
        forall y | y in right[1..] ensures rkey(y) != k {
          var j :| 0 <= j < |right[1..]| && right[1..][j] == y;
          assert right[j + 1] == y;
        }
        NoMatches(right[1..], k, rkey);
      }
    }
  }

  /** The left row l paired with each right row of m, in order. */
  function Pairs<L, R>(l: L, m: seq<R>): (r: seq<Joined<L, R>>)
    ensures |r| == |m|
    ensures forall j :: 0 <= j < |r| ==> r[j] == Joined(l, Some(m[j]))
  {
    if m == [] then [] else [Joined(l, Some(m[0]))] + Pairs(l, m[1..])
  }

  /** Each right row of m occurs in the pairing as often as in m. */
  lemma {:induction false} PairsCount<L, R>(l: L, m: seq<R>, x: L, y: R)
    ensures multiset(Pairs(l, m))[Joined(x, Some(y))] == if x == l then multiset(m)[y] else 0
  {
    if m != [] {
      PairsCount(l, m[1..], x, y);
      assert m == [m[0]] + m[1..];
      assert Pairs(l, m) == [Joined(l, Some(m[0]))] + Pairs(l, m[1..]);
    }
  }

  function JoinRow<L, R>(l: L, m: seq<R>): (r: seq<Joined<L, R>>)
    ensures |r| >= 1
    ensures forall j :: 0 <= j < |r| ==> r[j].left == l
    ensures forall j :: 0 <= j < |r| ==> (r[j].right.None? <==> m == [])
    ensures forall j :: 0 <= j < |r| && r[j].right.Some? ==> r[j].right.value in m
    ensures |m| >= 1 ==> |r| == |m| && forall j :: 0 <= j < |r| ==> r[j].right == Some(m[j])
  {
    if m == [] then [Joined(l, None)] else Pairs(l, m)
  }

  /** `pd.merge(left, right, left_on=…, right_on=…, how='left')`: every left row is
      kept, in order, once per matching right row, or once with no right part. */
  function LeftJoin<L, R(!new)>(left: seq<L>, right: seq<R>, lkey: L -> string, rkey: R -> string)
    : (r: seq<Joined<L, R>>)
    ensures |r| >= |left|
    ensures forall j :: 0 <= j < |r| ==> r[j].left in left
    ensures forall j :: 0 <= j < |r| && r[j].right.Some? ==>
              r[j].right.value in right && rkey(r[j].right.value) == lkey(r[j].left)
    ensures forall j :: 0 <= j < |r| && r[j].right.None? ==>
              forall y :: y in right ==> rkey(y) != lkey(r[j].left)
  {
    if left == [] then []
    else
      var head := JoinRow(left[0], Matches(right, lkey(left[0]), rkey));
      var rest := LeftJoin(left[1..], right, lkey, rkey);
      assert left == [left[0]] + left[1..];
      assert forall j :: 0 <= j < |rest| ==> (head + rest)[|head| + j] == rest[j];
      head + rest
  }

  ghost predicate KeepsEveryLeftRow<L, R>(left: seq<L>, r: seq<Joined<L, R>>) {
    forall i :: 0 <= i < |left| ==> exists j :: 0 <= j < |r| && r[j].left == left[i]
  }

  /** No boundary is lost: every left row appears in the merge. */
  lemma {:induction false} LeftJoinKeepsLeft<L, R(!new)>(left: seq<L>, right: seq<R>, lkey: L -> string, rkey: R -> string)
    ensures KeepsEveryLeftRow(left, LeftJoin(left, right, lkey, rkey))
  {
    if left != [] {
      LeftJoinKeepsLeft(left[1..], right, lkey, rkey);
      var head := JoinRow(left[0], Matches(right, lkey(left[0]), rkey));
      var rest := LeftJoin(left[1..], right, lkey, rkey);
      var r := head + rest;
      assert r == LeftJoin(left, right, lkey, rkey);
      assert r[0] == head[0];
      forall i | 1 <= i < |left| ensures exists j :: 0 <= j < |r| && r[j].left == left[i] {
        var j :| 0 <= j < |rest| && rest[j].left == left[1..][i - 1];
        assert r[|head| + j] == rest[j];
      }
      assert KeepsEveryLeftRow(left, r);
    }
  }

  /** The merge of a non-empty left table: its first row's pairings, then the rest. */
  lemma LeftJoinCons<L, R(!new)>(left: seq<L>, right: seq<R>, lkey: L -> string, rkey: R -> string)
    requires left != []
    ensures multiset(left) == multiset{left[0]} + multiset(left[1..])
    ensures multiset(LeftJoin(left, right, lkey, rkey))
      == multiset(JoinRow(left[0], Matches(right, lkey(left[0]), rkey))) + multiset(LeftJoin(left[1..], right, lkey, rkey))
  {
    assert left == [left[0]] + left[1..];
  }

  /** The pairings of one left row l0: a matching right row y occurs as often as
      on the right, paired with l0 and no other left row. */
  lemma JoinRowCount<L, R(!new)>(l0: L, right: seq<R>, lkey: L -> string, rkey: R -> string, l: L, y: R)
    requires rkey(y) == lkey(l)
    ensures multiset(JoinRow(l0, Matches(right, lkey(l0), rkey)))[Joined(l, Some(y))]
      == if l == l0 then multiset(right)[y] else 0
  {
    var m := Matches(right, lkey(l0), rkey);
    if m == [] {
      assert Joined(l, Some(y)) !in JoinRow(l0, m);
      if l == l0 {
        assert y !in multiset(right);
      }
    } else {
      PairsCount(l0, m, l, y);
    }
  }

  /** A left row l0 pairs with nothing exactly once when no right row has its key,
      and a no-match entry never names another left row. */
  lemma JoinRowUnmatchedCount<L, R(!new)>(l0: L, right: seq<R>, lkey: L -> string, rkey: R -> string, l: L)
    requires forall y :: y in right ==> rkey(y) != lkey(l)
    ensures multiset(JoinRow(l0, Matches(right, lkey(l0), rkey)))[Joined(l, None)] == if l == l0 then 1 else 0
  {
    var m := Matches(right, lkey(l0), rkey);
    if l == l0 {
      assert multiset(m) == multiset{};
      assert JoinRow(l0, m) == [Joined(l, None)];
    } else {
      assert Joined(l, None) !in JoinRow(l0, m);
    }
  }

  /** The arithmetic of one step of the count: one more left row adds c pairings. */
  lemma CountStep(total: int, head: int, rest: int, n: int, before: int, c: int, here: bool)
    requires total == head + rest && rest == before * c
    requires head == (if here then c else 0) && n == (if here then before + 1 else before)
    ensures total == n * c
  {
    if here {
      assert (before + 1) * c == before * c + c;
    }
  }

  /** The merge's rows, counted: a left row l and a right row y with the same key
      are paired as often as l occurs on the left times y occurs on the right. */
  lemma {:induction false} LeftJoinCount<L, R(!new)>(left: seq<L>, right: seq<R>, lkey: L -> string, rkey: R -> string,
                                                    l: L, y: R)
    requires rkey(y) == lkey(l)
    ensures multiset(LeftJoin(left, right, lkey, rkey))[Joined(l, Some(y))] == multiset(left)[l] * multiset(right)[y]
  {
    if left != [] {
      LeftJoinCount(left[1..], right, lkey, rkey, l, y);
      LeftJoinCons(left, right, lkey, rkey);
      JoinRowCount(left[0], right, lkey, rkey, l, y);
      var j := Joined(l, Some(y));
      CountStep(multiset(LeftJoin(left, right, lkey, rkey))[j],
                multiset(JoinRow(left[0], Matches(right, lkey(left[0]), rkey)))[j],
                multiset(LeftJoin(left[1..], right, lkey, rkey))[j],
                multiset(left)[l], multiset(left[1..])[l], multiset(right)[y], l == left[0]);
    }
  }

  /** A left row without a matching right row is kept once per occurrence, with
      no right part. */
  lemma {:induction false} LeftJoinUnmatchedCount<L, R(!new)>(left: seq<L>, right: seq<R>, lkey: L -> string,
                                                             rkey: R -> string, l: L)
    requires forall y :: y in right ==> rkey(y) != lkey(l)
    ensures multiset(LeftJoin(left, right, lkey, rkey))[Joined(l, None)] == multiset(left)[l]
  {
    if left != [] {
      LeftJoinUnmatchedCount(left[1..], right, lkey, rkey, l);
      LeftJoinCons(left, right, lkey, rkey);
      JoinRowUnmatchedCount(left[0], right, lkey, rkey, l);
      assert left == [left[0]] + left[1..];
    }
  }

  lemma ProductPositive(a: int, b: int)
    requires a >= 1 && b >= 1
    ensures a * b >= 1
  {
  }

  /** Every left row meets every matching right row in the merge. */
  lemma LeftJoinKeepsMatches<L, R(!new)>(left: seq<L>, right: seq<R>, lkey: L -> string, rkey: R -> string)
    ensures forall i, y :: 0 <= i < |left| && y in right && rkey(y) == lkey(left[i]) ==>
              Joined(left[i], Some(y)) in LeftJoin(left, right, lkey, rkey)
  {
    forall i, y | 0 <= i < |left| && y in right && rkey(y) == lkey(left[i])
      ensures Joined(left[i], Some(y)) in LeftJoin(left, right, lkey, rkey)
    {
      LeftJoinCount(left, right, lkey, rkey, left[i], y);
      assert left[i] in multiset(left);
      assert y in multiset(right);
      ProductPositive(multiset(left)[left[i]], multiset(right)[y]);
    }
  }

  /** The first right row whose key is k, if any. */
  function FirstMatch<R(!new)>(right: seq<R>, k: string, rkey: R -> string): (r: Option<R>)
    ensures r.None? <==> forall y :: y in right ==> rkey(y) != k
    ensures r.Some? ==> r.value in right && rkey(r.value) == k
  {
    var m := Matches(right, k, rkey);
    if m == [] then None
    else
      assert m[0] in m;
      Some(m[0])
  }

  /** With unique right keys the merge keeps the left rows one for one: same row
      count, same order, each paired with its only match or with nothing. */
  lemma {:induction false} LeftJoinUnique<L, R(!new)>(left: seq<L>, right: seq<R>, lkey: L -> string, rkey: R -> string)
    requires UniqueKeys(right, rkey)
    ensures var r := LeftJoin(left, right, lkey, rkey);
      && |r| == |left|
      && (forall i :: 0 <= i < |r| ==> r[i].left == left[i])
      && (forall i :: 0 <= i < |r| ==> r[i].right == FirstMatch(right, lkey(left[i]), rkey))
  {
    if left != [] {
      MatchesUnique(right, lkey(left[0]), rkey);
      LeftJoinUnique(left[1..], right, lkey, rkey);
      var m := Matches(right, lkey(left[0]), rkey);
      var head := JoinRow(left[0], m);
      var rest := LeftJoin(left[1..], right, lkey, rkey);
      var r := head + rest;
      assert r == LeftJoin(left, right, lkey, rkey);
      assert |head| == 1 && r[0] == head[0];
      forall i | 1 <= i < |r| ensures r[i].left == left[i] && r[i].right == FirstMatch(right, lkey(left[i]), rkey) {
        assert r[i] == rest[i - 1] && left[1..][i - 1] == left[i];
      }
    }
  }
}

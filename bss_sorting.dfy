/**
 * The column model of the BSS table and `Sortable::sort_by_column`: the
 * column headers, the two sort orders, the per-column comparator and the
 * stable sort that `Vec::sort_by` performs with it.
 *
 * Each column compares the records by one key. The model writes every key as
 * a sequence of integers compared lexicographically: numbers become one-element
 * keys, text becomes its code points (Rust compares `str` byte-wise, which is
 * code-point order), an optional SSID puts `None` (key [0]) before every
 * `Some` (key [1] followed by the text), and the derived orderings of the
 * crate's enumerations become their rank.
 */
module BssSorting {
  import opened Wrappers
  import opened Kawaiifi

  datatype BssTableColumnHeader =
    | Bssid
    | Ssid
    | Channel
    | ChannelWidth
    | Band
    | Frequency
    | Signal
    | WiFiProtocols
    | Security
    | MaxRate

  /** `TableSortOrder`. The names are kept as the program has them: see `Directed`. */
  datatype TableSortOrder = Ascending | Descending

  /** Rust's `std::cmp::Ordering`. */
  datatype Ordering = Less | Equal | Greater {
    function Reverse(): Ordering {
      match this
      case Less => Greater
      case Equal => Equal
      case Greater => Less
    }
  }

  function TextKey(s: string): seq<int> {
    seq(|s|, i requires 0 <= i < |s| => s[i] as int)
  }

  function SsidKey(ssid: Option<string>): seq<int> {
    match ssid
    case None => [0]
    case Some(s) => [1] + TextKey(s)
  }

  /** What `compare_bss` compares for `column`; Security and Max Rate fall back to the BSSID. */
  function ColumnKey(column: BssTableColumnHeader, bss: Bss): seq<int> {
    match column
    case Bssid => bss.bssid
    case Ssid => SsidKey(bss.ssid)
    case Channel => [bss.channel.number]
    case ChannelWidth => [bss.channel.width.rank]
    case Band => [bss.channel.band.rank]
    case Frequency => [bss.channel.centerFreqMhz]
    case Signal => [bss.signalDbm]
    case WiFiProtocols => [bss.wifiProtocols.rank]
    case _ => bss.bssid
  }

  /** Lexicographic comparison, a shorter prefix first (Rust's `Ord` on slices). */
  function CompareKeys(a: seq<int>, b: seq<int>): Ordering {
    if |a| == 0 then (if |b| == 0 then Equal else Less)
    else if |b| == 0 then Greater
    else if a[0] < b[0] then Less
    else if a[0] > b[0] then Greater
    else CompareKeys(a[1..], b[1..])
  }

  /** The closure `compare_bss`. */
  function CompareBss(column: BssTableColumnHeader, a: Bss, b: Bss): Ordering {
    CompareKeys(ColumnKey(column, a), ColumnKey(column, b))
  }

  /**
   * The comparator handed to `sort_by`: `Descending` uses the raw comparison,
   * so it sorts keys from small to large; `Ascending` reverses it.
   */
  function Directed(order: TableSortOrder, o: Ordering): Ordering {
    match order
    case Ascending => o.Reverse()
    case Descending => o
  }

  /** `a` may stand before `b`: the directed comparison does not say `Greater`. */
  predicate Precedes(column: BssTableColumnHeader, order: TableSortOrder, a: Bss, b: Bss) {
    Directed(order, CompareBss(column, a, b)) != Greater
  }

  predicate SortedBy(s: seq<Bss>, column: BssTableColumnHeader, order: TableSortOrder) {
    forall i, j :: 0 <= i < j < |s| ==> Precedes(column, order, s[i], s[j])
  }

  /** The records of `s` whose key in `column` is `key`, in the order of `s`. */
  function WithKey(s: seq<Bss>, column: BssTableColumnHeader, key: seq<int>): seq<Bss> {
    if |s| == 0 then [] else Pick(s[0], column, key) + WithKey(s[1..], column, key)
  }

  function Pick(b: Bss, column: BssTableColumnHeader, key: seq<int>): seq<Bss> {
    if ColumnKey(column, b) == key then [b] else []
  }

  /** Stability: records with equal keys keep the relative order they had in `s`. */
  ghost predicate KeepsTies(r: seq<Bss>, s: seq<Bss>, column: BssTableColumnHeader) {
    forall key :: WithKey(r, column, key) == WithKey(s, column, key)
  }

  /** Inserts `x` before the first record it may precede. */
  function InsertSorted(x: Bss, s: seq<Bss>, column: BssTableColumnHeader, order: TableSortOrder): (r: seq<Bss>)
    ensures multiset(r) == multiset(s) + multiset{x}
    ensures |r| == |s| + 1
  {
    if |s| == 0 then [x]
    else if Precedes(column, order, x, s[0]) then [x] + s
    else
      assert s == [s[0]] + s[1..];
      [s[0]] + InsertSorted(x, s[1..], column, order)
  }

  /**
   * `sort_by_column`: the stable sort `Vec::sort_by` performs with the directed
   * comparator, written as an insertion sort. `StableSortIsUnique` shows that
   * every stable sort gives this same sequence.
   */
  function SortByColumn(s: seq<Bss>, column: BssTableColumnHeader, order: TableSortOrder): (r: seq<Bss>)
    ensures multiset(r) == multiset(s)
    ensures |r| == |s|
  {
    if |s| == 0 then []
    else
      assert s == [s[0]] + s[1..];
      InsertSorted(s[0], SortByColumn(s[1..], column, order), column, order)
  }

  // Properties of the key comparison.

  lemma {:induction false} CompareKeysEqual(a: seq<int>, b: seq<int>)
    ensures CompareKeys(a, b) == Equal <==> a == b
    decreases |a|
  {
    if |a| > 0 && |b| > 0 && a[0] == b[0] {
      CompareKeysEqual(a[1..], b[1..]);
      assert a == [a[0]] + a[1..] && b == [b[0]] + b[1..];
    }
  }

  lemma {:induction false} CompareKeysFlip(a: seq<int>, b: seq<int>)
    ensures CompareKeys(b, a) == CompareKeys(a, b).Reverse()
    decreases |a|
  {
    if |a| > 0 && |b| > 0 && a[0] == b[0] {
      CompareKeysFlip(a[1..], b[1..]);
    }
  }

  lemma {:induction false} CompareKeysTransitive(a: seq<int>, b: seq<int>, c: seq<int>)
    requires CompareKeys(a, b) != Greater && CompareKeys(b, c) != Greater
    ensures CompareKeys(a, c) != Greater
    decreases |a|
  {
    if |a| > 0 && |b| > 0 && |c| > 0 && a[0] == b[0] == c[0] {
      CompareKeysTransitive(a[1..], b[1..], c[1..]);
    }
  }

  /** What `Precedes` means for each order, in terms of the raw key comparison. */
  lemma PrecedesMeaning(column: BssTableColumnHeader, order: TableSortOrder, a: Bss, b: Bss)
    ensures order == Descending ==>
      (Precedes(column, order, a, b) <==> CompareKeys(ColumnKey(column, a), ColumnKey(column, b)) != Greater)
    ensures order == Ascending ==>
      (Precedes(column, order, a, b) <==> CompareKeys(ColumnKey(column, b), ColumnKey(column, a)) != Greater)
    ensures order == Ascending ==>
      (Precedes(column, order, a, b) <==> CompareKeys(ColumnKey(column, a), ColumnKey(column, b)) != Less)
  {
    CompareKeysFlip(ColumnKey(column, a), ColumnKey(column, b));
  }

  lemma PrecedesTotal(column: BssTableColumnHeader, order: TableSortOrder, a: Bss, b: Bss)
    ensures Precedes(column, order, a, b) || Precedes(column, order, b, a)
  {
    PrecedesMeaning(column, order, a, b);
    PrecedesMeaning(column, order, b, a);
    CompareKeysFlip(ColumnKey(column, a), ColumnKey(column, b));
  }

  lemma PrecedesTransitive(column: BssTableColumnHeader, order: TableSortOrder, a: Bss, b: Bss, c: Bss)
    requires Precedes(column, order, a, b) && Precedes(column, order, b, c)
    ensures Precedes(column, order, a, c)
  {
    PrecedesMeaning(column, order, a, b);
    PrecedesMeaning(column, order, b, c);
    PrecedesMeaning(column, order, a, c);
    var ka, kb, kc := ColumnKey(column, a), ColumnKey(column, b), ColumnKey(column, c);
    if order == Descending {
      CompareKeysTransitive(ka, kb, kc);
    } else {
      CompareKeysTransitive(kc, kb, ka);
    }
  }

  /** Two records precede each other exactly when their keys are equal. */
  lemma PrecedesBothWays(column: BssTableColumnHeader, order: TableSortOrder, a: Bss, b: Bss)
    ensures Precedes(column, order, a, b) && Precedes(column, order, b, a) <==> ColumnKey(column, a) == ColumnKey(column, b)
  {
    var ka, kb := ColumnKey(column, a), ColumnKey(column, b);
    PrecedesMeaning(column, order, a, b);
    PrecedesMeaning(column, order, b, a);
    CompareKeysFlip(ka, kb);
    CompareKeysEqual(ka, kb);
    CompareKeysEqual(kb, ka);
  }

  // Properties of the filter behind stability.

  lemma {:induction false} WithKeyAppend(a: seq<Bss>, b: seq<Bss>, column: BssTableColumnHeader, key: seq<int>)
    ensures WithKey(a + b, column, key) == WithKey(a, column, key) + WithKey(b, column, key)
    decreases |a|
  {
    if |a| > 0 {
      assert (a + b)[1..] == a[1..] + b;
      WithKeyAppend(a[1..], b, column, key);
    } else {
      assert a + b == b;
    }
  }

  lemma WithKeyCons(b: Bss, s: seq<Bss>, column: BssTableColumnHeader, key: seq<int>)
    ensures WithKey([b] + s, column, key) == Pick(b, column, key) + WithKey(s, column, key)
  {
    assert ([b] + s)[1..] == s;
  }

  // Correctness of the sort.

  lemma SortedTail(s: seq<Bss>, column: BssTableColumnHeader, order: TableSortOrder)
    requires |s| > 0 && SortedBy(s, column, order)
    ensures SortedBy(s[1..], column, order)
  {
    forall i, j | 0 <= i < j < |s| - 1
      ensures Precedes(column, order, s[1..][i], s[1..][j])
    {
      assert s[1..][i] == s[i + 1] && s[1..][j] == s[j + 1];
    }
  }

  /** Every record of `InsertSorted(x, s, ...)` is `x` or a record of `s`. */
  lemma InsertSortedMember(x: Bss, s: seq<Bss>, column: BssTableColumnHeader, order: TableSortOrder, j: nat)
    requires j < |InsertSorted(x, s, column, order)|
    ensures InsertSorted(x, s, column, order)[j] == x || exists m :: 0 <= m < |s| && s[m] == InsertSorted(x, s, column, order)[j]
  {
    var t := InsertSorted(x, s, column, order);
    assert t[j] in multiset(t);
    if t[j] != x {
      assert t[j] in multiset(s);
      assert t[j] in s;
    }
  }

  /** A record that precedes the head of a sorted sequence precedes all of it. */
  lemma PrecedesSortedHead(x: Bss, s: seq<Bss>, column: BssTableColumnHeader, order: TableSortOrder)
    requires |s| > 0 && SortedBy(s, column, order) && Precedes(column, order, x, s[0])
    ensures SortedBy([x] + s, column, order)
  {
    var r := [x] + s;
    forall i, j | 0 <= i < j < |r|
      ensures Precedes(column, order, r[i], r[j])
    {
      if i == 0 && j > 1 {
        PrecedesTransitive(column, order, x, s[0], s[j - 1]);
      }
    }
  }

  /** Prepending a record that precedes every record of a sorted sequence keeps it sorted. */
  lemma PrependSorted(y: Bss, t: seq<Bss>, column: BssTableColumnHeader, order: TableSortOrder)
    requires SortedBy(t, column, order)
    requires forall j :: 0 <= j < |t| ==> Precedes(column, order, y, t[j])
    ensures SortedBy([y] + t, column, order)
  {
    var r := [y] + t;
    forall i, j | 0 <= i < j < |r|
      ensures Precedes(column, order, r[i], r[j])
    {
      assert r[j] == t[j - 1];
      if i > 0 {
        assert r[i] == t[i - 1];
      }
    }
  }

  lemma {:induction false} InsertSortedSorted(x: Bss, s: seq<Bss>, column: BssTableColumnHeader, order: TableSortOrder)
    requires SortedBy(s, column, order)
    ensures SortedBy(InsertSorted(x, s, column, order), column, order)
    decreases |s|
  {
    if |s| == 0 {
    } else if Precedes(column, order, x, s[0]) {
      PrecedesSortedHead(x, s, column, order);
    } else {
      PrecedesTotal(column, order, x, s[0]);
      SortedTail(s, column, order);
      InsertSortedSorted(x, s[1..], column, order);
      var t := InsertSorted(x, s[1..], column, order);
      forall j | 0 <= j < |t|
        ensures Precedes(column, order, s[0], t[j])
      {
        InsertSortedMember(x, s[1..], column, order, j);
        if t[j] != x {
          var m :| 0 <= m < |s[1..]| && s[1..][m] == t[j];
          assert s[m + 1] == t[j];
        }
      }
      PrependSorted(s[0], t, column, order);
    }
  }

  lemma {:induction false} SortByColumnSorted(s: seq<Bss>, column: BssTableColumnHeader, order: TableSortOrder)
    ensures SortedBy(SortByColumn(s, column, order), column, order)
    decreases |s|
  {
    if |s| > 0 {
      SortByColumnSorted(s[1..], column, order);
      InsertSortedSorted(s[0], SortByColumn(s[1..], column, order), column, order);
    }
  }

  /** Two picks of which at least one is empty commute. */
  lemma PicksCommute(p: seq<Bss>, q: seq<Bss>, w: seq<Bss>)
    requires p == [] || q == []
    ensures p + (q + w) == q + (p + w)
  {
    if p == [] {
      assert p + (q + w) == q + w == q + (p + w);
    } else {
      assert q + (p + w) == p + w == p + (q + w);
    }
  }

  lemma {:induction false} InsertSortedKeepsTies(x: Bss, s: seq<Bss>, column: BssTableColumnHeader, order: TableSortOrder, key: seq<int>)
    ensures WithKey(InsertSorted(x, s, column, order), column, key) == WithKey([x] + s, column, key)
    decreases |s|
  {
    if |s| > 0 && !Precedes(column, order, x, s[0]) {
      var t := InsertSorted(x, s[1..], column, order);
      var px, p0 := Pick(x, column, key), Pick(s[0], column, key);
      assert px == [] || p0 == [] by {
        PrecedesBothWays(column, order, x, s[0]);
      }
      assert WithKey(t, column, key) == px + WithKey(s[1..], column, key) by {
        InsertSortedKeepsTies(x, s[1..], column, order, key);
        WithKeyCons(x, s[1..], column, key);
      }
      assert WithKey([x] + s, column, key) == px + (p0 + WithKey(s[1..], column, key)) by {
        WithKeyCons(x, s, column, key);
        assert s == [s[0]] + s[1..];
        WithKeyCons(s[0], s[1..], column, key);
      }
      assert InsertSorted(x, s, column, order) == [s[0]] + t;
      WithKeyCons(s[0], t, column, key);
      PicksCommute(p0, px, WithKey(s[1..], column, key));
    } else if |s| > 0 {
      assert InsertSorted(x, s, column, order) == [x] + s;
    }
  }

  lemma {:induction false} SortByColumnKeepsTies(s: seq<Bss>, column: BssTableColumnHeader, order: TableSortOrder, key: seq<int>)
    ensures WithKey(SortByColumn(s, column, order), column, key) == WithKey(s, column, key)
    decreases |s|
  {
    if |s| > 0 {
      var rest := SortByColumn(s[1..], column, order);
      InsertSortedKeepsTies(s[0], rest, column, order, key);
      SortByColumnKeepsTies(s[1..], column, order, key);
      assert ([s[0]] + rest)[1..] == rest;
    }
  }

  /**
   * `sort_by_column` returns a permutation of its input, ordered by the
   * directed comparator (keys non-decreasing under `Descending`,
   * non-increasing under `Ascending`), with ties in their input order.
   */
  lemma SortByColumnCorrect(s: seq<Bss>, column: BssTableColumnHeader, order: TableSortOrder)
    ensures multiset(SortByColumn(s, column, order)) == multiset(s)
    ensures SortedBy(SortByColumn(s, column, order), column, order)
    ensures KeepsTies(SortByColumn(s, column, order), s, column)
    ensures order == Descending ==> forall i, j :: 0 <= i < j < |s| ==>
      CompareBss(column, SortByColumn(s, column, order)[i], SortByColumn(s, column, order)[j]) != Greater
    ensures order == Ascending ==> forall i, j :: 0 <= i < j < |s| ==>
      CompareBss(column, SortByColumn(s, column, order)[i], SortByColumn(s, column, order)[j]) != Less
  {
    var r := SortByColumn(s, column, order);
    SortByColumnSorted(s, column, order);
    forall key {
      SortByColumnKeepsTies(s, column, order, key);
    }
    forall i, j | 0 <= i < j < |s|
      ensures order == Descending ==> CompareBss(column, r[i], r[j]) != Greater
      ensures order == Ascending ==> CompareBss(column, r[i], r[j]) != Less
    {
      PrecedesMeaning(column, order, r[i], r[j]);
    }
  }

  /** Two sorted permutations of each other start with records of the same key. */
  lemma SortedHeadsShareKey(r1: seq<Bss>, r2: seq<Bss>, column: BssTableColumnHeader, order: TableSortOrder)
    requires |r1| > 0 && |r2| > 0 && multiset(r1) == multiset(r2)
    requires SortedBy(r1, column, order) && SortedBy(r2, column, order)
    ensures ColumnKey(column, r1[0]) == ColumnKey(column, r2[0])
  {
    assert r2[0] in multiset(r1) && r1[0] in multiset(r2);
    var m1 :| 0 <= m1 < |r1| && r1[m1] == r2[0];
    var m2 :| 0 <= m2 < |r2| && r2[m2] == r1[0];
    PrecedesBothWays(column, order, r1[0], r1[0]);
    PrecedesBothWays(column, order, r2[0], r2[0]);
    if m1 > 0 {
      assert Precedes(column, order, r1[0], r1[m1]);
    }
    if m2 > 0 {
      assert Precedes(column, order, r2[0], r2[m2]);
    }
    PrecedesBothWays(column, order, r1[0], r2[0]);
  }

  /** Dropping the common head keeps the per-key subsequences equal. */
  lemma TailsKeepTies(r1: seq<Bss>, r2: seq<Bss>, column: BssTableColumnHeader)
    requires |r1| > 0 && |r2| > 0 && r1[0] == r2[0]
    requires KeepsTies(r1, r2, column)
    ensures KeepsTies(r1[1..], r2[1..], column)
  {
    forall key
      ensures WithKey(r1[1..], column, key) == WithKey(r2[1..], column, key)
    {
      var p := Pick(r1[0], column, key);
      assert WithKey(r1, column, key) == p + WithKey(r1[1..], column, key);
      assert WithKey(r2, column, key) == p + WithKey(r2[1..], column, key);
      assert WithKey(r1[1..], column, key) == WithKey(r1, column, key)[|p|..];
      assert WithKey(r2[1..], column, key) == WithKey(r2, column, key)[|p|..];
    }
  }

  lemma MultisetTails(r1: seq<Bss>, r2: seq<Bss>)
    requires |r1| > 0 && |r2| > 0 && r1[0] == r2[0] && multiset(r1) == multiset(r2)
    ensures multiset(r1[1..]) == multiset(r2[1..])
  {
    assert r1 == [r1[0]] + r1[1..] && r2 == [r2[0]] + r2[1..];
    assert multiset(r1[1..]) == multiset(r1) - multiset{r1[0]};
    assert multiset(r2[1..]) == multiset(r2) - multiset{r2[0]};
  }

  /** Sorted permutations that keep ties in order have the same head. */
  lemma StableSortsShareHead(r1: seq<Bss>, r2: seq<Bss>, column: BssTableColumnHeader, order: TableSortOrder)
    requires |r1| > 0 && |r2| > 0 && multiset(r1) == multiset(r2)
    requires SortedBy(r1, column, order) && SortedBy(r2, column, order)
    requires KeepsTies(r1, r2, column)
    ensures r1[0] == r2[0]
  {
    SortedHeadsShareKey(r1, r2, column, order);
    var k := ColumnKey(column, r1[0]);
    WithKeyCons(r1[0], r1[1..], column, k);
    WithKeyCons(r2[0], r2[1..], column, k);
    assert r1 == [r1[0]] + r1[1..] && r2 == [r2[0]] + r2[1..];
    assert WithKey(r1, column, k)[0] == r1[0];
    assert WithKey(r2, column, k)[0] == r2[0];
  }

  /** A sorted permutation that keeps ties in order is unique. */
  lemma {:induction false} StableSortIsUnique(r1: seq<Bss>, r2: seq<Bss>, column: BssTableColumnHeader, order: TableSortOrder)
    requires multiset(r1) == multiset(r2)
    requires SortedBy(r1, column, order) && SortedBy(r2, column, order)
    requires KeepsTies(r1, r2, column)
    ensures r1 == r2
    decreases |r1|
  {
    assert |r1| == |multiset(r1)| == |r2|;
    if |r1| > 0 {
      StableSortsShareHead(r1, r2, column, order);
      TailsKeepTies(r1, r2, column);
      MultisetTails(r1, r2);
      SortedTail(r1, column, order);
      SortedTail(r2, column, order);
      StableSortIsUnique(r1[1..], r2[1..], column, order);
      assert r1 == [r1[0]] + r1[1..] && r2 == [r2[0]] + r2[1..];
    }
  }

  /** Whatever stable sort `Vec::sort_by` runs, its result is `SortByColumn`. */
  lemma AnyStableSortIsSortByColumn(s: seq<Bss>, r: seq<Bss>, column: BssTableColumnHeader, order: TableSortOrder)
    requires multiset(r) == multiset(s)
    requires SortedBy(r, column, order)
    requires KeepsTies(r, s, column)
    ensures r == SortByColumn(s, column, order)
  {
    SortByColumnCorrect(s, column, order);
    StableSortIsUnique(r, SortByColumn(s, column, order), column, order);
  }

  /** Under `Descending` the weakest signal comes first; under `Ascending`, the strongest. */
  lemma SignalOrderExample(a: Bss, b: Bss)
    requires a.signalDbm == -40 && b.signalDbm == -60
    ensures SortByColumn([a, b], Signal, Descending) == [b, a]
    ensures SortByColumn([a, b], Signal, Ascending) == [a, b]
  {
    assert [a, b][1..] == [b];
    assert [b][1..] == [];
    assert SortByColumn([b], Signal, Descending) == [b];
    assert SortByColumn([b], Signal, Ascending) == [b];
    assert !Precedes(Signal, Descending, a, b);
    assert Precedes(Signal, Ascending, a, b);
  }
}

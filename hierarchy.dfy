/** The record-building half of `parse_elements`: the committed pairs are
    sorted by (size, start, end), each becomes a record keyed by the tuple
    of the positions it covers, and each record lists the keys of the
    spans that strictly contain it (`parents`) and of those it strictly
    contains (`children`).

    Python's `sorted` is modelled as a stable insertion sort on list keys
    compared lexicographically, which is how Python compares lists. */
module Hierarchy {
  import opened Base
  import opened Matcher

  /** One value of the returned dict, together with its key. */
  datatype Record = Record(
    size: int, start: nat, end: nat, text: string,
    key: seq<int>, parents: seq<seq<int>>, children: seq<seq<int>>)

  // ---------------------------------------------------------------------
  // Python's sorted(xs, key=...)

  /** `a <= b` for Python lists of integers. */
  predicate LexLe(a: seq<int>, b: seq<int>)
    decreases |a|
  {
    a == [] || (b != [] && (a[0] < b[0] || (a[0] == b[0] && LexLe(a[1..], b[1..]))))
  }

  lemma {:induction false} LexLeRefl(a: seq<int>)
    ensures LexLe(a, a)
    decreases |a|
  {
    if a != [] {
      LexLeRefl(a[1..]);
    }
  }

  lemma {:induction false} LexLeTotal(a: seq<int>, b: seq<int>)
    ensures LexLe(a, b) || LexLe(b, a)
    decreases |a|
  {
    if a != [] && b != [] && a[0] == b[0] {
      LexLeTotal(a[1..], b[1..]);
    }
  }

  lemma {:induction false} LexLeTrans(a: seq<int>, b: seq<int>, c: seq<int>)
    requires LexLe(a, b) && LexLe(b, c)
    ensures LexLe(a, c)
    decreases |a|
  {
    if a != [] && a[0] == b[0] && b[0] == c[0] {
      LexLeTrans(a[1..], b[1..], c[1..]);
    }
  }

  predicate SortedBy<T>(xs: seq<T>, key: T -> seq<int>)
  {
    forall i, j :: 0 <= i < j < |xs| ==> LexLe(key(xs[i]), key(xs[j]))
  }

  /** Puts `x` before the first element whose key is not smaller. */
  function Insert<T>(x: T, ys: seq<T>, key: T -> seq<int>): (r: seq<T>)
    ensures |r| == |ys| + 1
    ensures multiset(r) == multiset(ys) + multiset{x}
  {
    if ys == [] then [x]
    else if LexLe(key(x), key(ys[0])) then [x] + ys
    else
      assert ys == [ys[0]] + ys[1..];
      [ys[0]] + Insert(x, ys[1..], key)
  }

  /** `sorted(xs, key=key)`. */
  function SortBy<T>(xs: seq<T>, key: T -> seq<int>): (r: seq<T>)
    ensures |r| == |xs|
    ensures multiset(r) == multiset(xs)
  {
    if xs == [] then []
    else
      assert xs == [xs[0]] + xs[1..];
      Insert(xs[0], SortBy(xs[1..], key), key)
  }

  lemma {:induction false} InsertSorted<T>(x: T, ys: seq<T>, key: T -> seq<int>)
    requires SortedBy(ys, key)
    ensures SortedBy(Insert(x, ys, key), key)
  {
    if ys != [] {
      if LexLe(key(x), key(ys[0])) {
        InsertFront(x, ys, key);
      } else {
        LexLeTotal(key(x), key(ys[0]));
        InsertSorted(x, ys[1..], key);
        InsertBehind(x, ys, key);
      }
    }
  }

  /** `x` goes in front of a sorted list whose first key is not smaller. */
  lemma InsertFront<T>(x: T, ys: seq<T>, key: T -> seq<int>)
    requires ys != [] && SortedBy(ys, key) && LexLe(key(x), key(ys[0]))
    ensures SortedBy([x] + ys, key)
  {
    var r := [x] + ys;
    forall i, j | 0 <= i < j < |r| ensures LexLe(key(r[i]), key(r[j])) {
      if i == 0 && j > 1 {
        LexLeTrans(key(x), key(ys[0]), key(ys[j - 1]));
      }
    }
  }

  /** `x` goes behind the first element of a sorted list whose first key
      is smaller, into a sorted rest. */
  lemma InsertBehind<T>(x: T, ys: seq<T>, key: T -> seq<int>)
    requires ys != [] && SortedBy(ys, key) && !LexLe(key(x), key(ys[0])) && LexLe(key(ys[0]), key(x))
    requires SortedBy(Insert(x, ys[1..], key), key)
    ensures SortedBy(Insert(x, ys, key), key)
  {
    var tail := Insert(x, ys[1..], key);
    InsertBounded(x, ys, key);
    var r := [ys[0]] + tail;
    assert Insert(x, ys, key) == r;
    forall i, j | 0 <= i < j < |r| ensures LexLe(key(r[i]), key(r[j])) {
      if i > 0 {
        assert r[i] == tail[i - 1] && r[j] == tail[j - 1];
      }
    }
  }

  /** Inserting `x` into the rest of a sorted list keeps every key at least
      the first one, when `x`'s is. */
  lemma InsertBounded<T>(x: T, ys: seq<T>, key: T -> seq<int>)
    requires ys != [] && SortedBy(ys, key) && LexLe(key(ys[0]), key(x))
    ensures forall j :: 0 <= j < |Insert(x, ys[1..], key)| ==> LexLe(key(ys[0]), key(Insert(x, ys[1..], key)[j]))
  {
    var tail := Insert(x, ys[1..], key);
    forall j | 0 <= j < |tail| ensures LexLe(key(ys[0]), key(tail[j])) {
      assert tail[j] in multiset(tail);
      if tail[j] != x {
        assert tail[j] in ys[1..];
        var m :| 0 <= m < |ys[1..]| && ys[1..][m] == tail[j];
        assert ys[m + 1] == tail[j];
      }
    }
  }

  /** `sorted` returns its input in key order... */
  lemma {:induction false} SortBySorted<T>(xs: seq<T>, key: T -> seq<int>)
    ensures SortedBy(SortBy(xs, key), key)
  {
    if xs != [] {
      SortBySorted(xs[1..], key);
      InsertSorted(xs[0], SortBy(xs[1..], key), key);
    }
  }

  /** The elements of `xs` whose key is `v`, in order. */
  function WithKey<T>(xs: seq<T>, key: T -> seq<int>, v: seq<int>): seq<T>
  {
    if xs == [] then [] else (if key(xs[0]) == v then [xs[0]] else []) + WithKey(xs[1..], key, v)
  }

  lemma WithKeyCons<T>(y: T, ys: seq<T>, key: T -> seq<int>, v: seq<int>)
    ensures WithKey([y] + ys, key, v) == (if key(y) == v then [y] else []) + WithKey(ys, key, v)
  {
    assert ([y] + ys)[1..] == ys;
  }

  lemma {:induction false} InsertWithKey<T>(x: T, ys: seq<T>, key: T -> seq<int>, v: seq<int>)
    ensures key(x) == v ==> WithKey(Insert(x, ys, key), key, v) == [x] + WithKey(ys, key, v)
    ensures key(x) != v ==> WithKey(Insert(x, ys, key), key, v) == WithKey(ys, key, v)
  {
    if ys == [] {
      WithKeyCons(x, [], key, v);
    } else if LexLe(key(x), key(ys[0])) {
      WithKeyCons(x, ys, key, v);
    } else {
      var tail := Insert(x, ys[1..], key);
      assert Insert(x, ys, key) == [ys[0]] + tail;
      LexLeRefl(key(x));
      InsertWithKey(x, ys[1..], key, v);
      WithKeyCons(ys[0], tail, key, v);
      WithKeyCons(ys[0], ys[1..], key, v);
      assert [ys[0]] + ys[1..] == ys;
      if key(ys[0]) == v {
        assert WithKey(Insert(x, ys, key), key, v) == [ys[0]] + WithKey(tail, key, v);
        assert WithKey(ys, key, v) == [ys[0]] + WithKey(ys[1..], key, v);
      } else {
        assert WithKey(Insert(x, ys, key), key, v) == WithKey(tail, key, v);
        assert WithKey(ys, key, v) == WithKey(ys[1..], key, v);
      }
    }
  }

  /** ... and is stable: elements with equal keys keep their order. */
  lemma {:induction false} SortByStable<T>(xs: seq<T>, key: T -> seq<int>, v: seq<int>)
    ensures WithKey(SortBy(xs, key), key, v) == WithKey(xs, key, v)
  {
    if xs != [] {
      var x, rest := xs[0], xs[1..];
      SortByStable(rest, key, v);
      InsertWithKey(x, SortBy(rest, key), key, v);
      WithKeyCons(x, rest, key, v);
      assert [x] + rest == xs;
    }
  }

  predicate DistinctBy<T, U(==)>(xs: seq<T>, f: T -> U)
  {
    forall i, j :: 0 <= i < j < |xs| ==> f(xs[i]) != f(xs[j])
  }

  lemma {:induction false} InsertDistinct<T, U>(x: T, ys: seq<T>, key: T -> seq<int>, f: T -> U)
    requires DistinctBy(ys, f)
    requires forall y :: y in ys ==> f(y) != f(x)
    ensures DistinctBy(Insert(x, ys, key), f)
  {
    var r := Insert(x, ys, key);
    if ys != [] && !LexLe(key(x), key(ys[0])) {
      InsertDistinct(x, ys[1..], key, f);
      var tail := Insert(x, ys[1..], key);
      forall j | 0 <= j < |tail| ensures f(ys[0]) != f(tail[j]) {
        assert tail[j] in multiset(tail);
        if tail[j] != x {
          assert tail[j] in ys[1..];
          var m :| 0 <= m < |ys[1..]| && ys[1..][m] == tail[j];
          assert ys[m + 1] == tail[j];
        }
      }
    }
  }

  /** Sorting keeps values that tell elements apart distinct. */
  lemma {:induction false} SortByDistinct<T, U>(xs: seq<T>, key: T -> seq<int>, f: T -> U)
    requires DistinctBy(xs, f)
    ensures DistinctBy(SortBy(xs, key), f)
  {
    if xs != [] {
      SortByDistinct(xs[1..], key, f);
      forall y | y in SortBy(xs[1..], key) ensures f(y) != f(xs[0]) {
        assert y in multiset(SortBy(xs[1..], key));
        var m :| 0 <= m < |xs[1..]| && xs[1..][m] == y;
        assert xs[m + 1] == y;
      }
      InsertDistinct(xs[0], SortBy(xs[1..], key), key, f);
    }
  }

  // ---------------------------------------------------------------------
  // Spans

  /** `tuple(sorted(set(range(auf, zu + 1))))`: the dict key of a span. */
  function SpanKey(p: Pair): seq<int>
  {
    Range(p.open, p.close + 1)
  }

  /** `set(range(auf, zu + 1))`: the positions a span covers. */
  function Covered(p: Pair): set<int>
  {
    set i | i in SpanKey(p)
  }

  /** Strict containment of covered sets is strict containment of
      intervals. */
  lemma CoveredStrictSubset(p: Pair, q: Pair)
    requires p.open <= p.close && q.open <= q.close
    ensures Covered(p) < Covered(q) <==> q.open <= p.open && p.close <= q.close && p != q
  {
    forall x ensures x in Covered(p) <==> p.open <= x <= p.close {
      RangeMembers(p.open, p.close + 1, x);
    }
    forall x ensures x in Covered(q) <==> q.open <= x <= q.close {
      RangeMembers(q.open, q.close + 1, x);
    }
    if Covered(p) < Covered(q) {
      assert p.open in Covered(p) && p.close in Covered(p);
    }
    if q.open <= p.open && p.close <= q.close && p != q {
      if q.open < p.open {
        assert q.open in Covered(q) && q.open !in Covered(p);
      } else {
        assert q.close in Covered(q) && q.close !in Covered(p);
      }
    }
  }

  /** The sort order of `allsorted`: `x[:3]`, i.e. (size, start, end). */
  function RowOrder(p: Pair): seq<int>
  {
    [p.close - p.open, p.open, p.close]
  }

  function LenAscending(k: seq<int>): seq<int> { [|k|] }

  /** `key=len, reverse=True`, which Python keeps stable. */
  function LenDescending(k: seq<int>): seq<int> { [-|k|] }
  /** `i[-1] < j[-1]`: the positions `p` covers are a strict subset of
      those `q` covers. */
  predicate Inside(p: Pair, q: Pair)
  {
    Covered(p) < Covered(q)
  }

  type SpanRelation = (Pair, Pair) -> bool

  /** The test that makes `q` a parent of `p`, and the one that makes it a
      child. */
  const ParentTest: SpanRelation := (p: Pair, q: Pair) => Inside(p, q)
  const ChildTest: SpanRelation := (p: Pair, q: Pair) => Inside(q, p)

  /** The list `asstring` of span `i`: the keys of the spans among
      `qs[..n]`, other than `qs[i]`, that `rel` relates to it, in row
      order. */
  function RelatedKeys(qs: seq<Pair>, i: nat, n: nat, rel: SpanRelation): (r: seq<seq<int>>)
    requires i < |qs| && n <= |qs|
    ensures forall k :: k in r <==>
      exists j :: 0 <= j < n && j != i && rel(qs[i], qs[j]) && k == SpanKey(qs[j])
  {
    if n == 0 then []
    else RelatedKeys(qs, i, n - 1, rel)
         + (if n - 1 != i && rel(qs[i], qs[n - 1]) then [SpanKey(qs[n - 1])] else [])
  }

  /** The record of the `i`th span of `allsorted`. */
  function MakeRecord(text: string, qs: seq<Pair>, i: nat): Record
    requires i < |qs|
  {
    var p := qs[i];
    Record(
      p.close - p.open, p.open, p.close, PySlice(text, p.open, p.close + 1), SpanKey(p),
      SortBy(RelatedKeys(qs, i, |qs|, ParentTest), LenAscending),
      SortBy(RelatedKeys(qs, i, |qs|, ChildTest), LenDescending))
  }

  /** The committed pairs as `allsorted` orders them. */
  function RowSorted(ps: seq<Pair>): seq<Pair>
  {
    SortBy(ps, RowOrder)
  }

  /** The values of the dict `parse_elements` returns, in insertion
      order. */
  function BuildRecords(text: string, ps: seq<Pair>): (rs: seq<Record>)
    ensures |rs| == |ps|
  {
    var qs := RowSorted(ps);
    seq(|qs|, i requires 0 <= i < |qs| => MakeRecord(text, qs, i))
  }

  /** A dict filled from `rs` in order: a later record with the same key
      replaces an earlier one. */
  function ToDict(rs: seq<Record>): (m: map<seq<int>, Record>)
    ensures m.Keys == set r | r in rs :: r.key
  {
    if rs == [] then map[]
    else ToDict(rs[..|rs| - 1])[rs[|rs| - 1].key := rs[|rs| - 1]]
  }

  // ---------------------------------------------------------------------
  // What the records promise

  /** Every pair opens before it closes, inside the text. */
  predicate SpansText(text: string, ps: seq<Pair>)
  {
    forall p :: p in ps ==> p.open < p.close < |text|
  }

  /** `a` strictly contains `b`, as intervals. */
  predicate Encloses(a: Record, b: Record)
  {
    a.start <= b.start && b.end <= a.end && (a.start != b.start || a.end != b.end)
  }

  function RecordOrder(r: Record): seq<int>
  {
    [r.size, r.start, r.end]
  }

  lemma RowSortedSpans(text: string, ps: seq<Pair>)
    requires SpansText(text, ps)
    ensures forall k :: 0 <= k < |RowSorted(ps)| ==> RowSorted(ps)[k].open < RowSorted(ps)[k].close < |text|
  {
    forall k | 0 <= k < |RowSorted(ps)| ensures RowSorted(ps)[k].open < RowSorted(ps)[k].close < |text| {
      assert RowSorted(ps)[k] in multiset(RowSorted(ps));
    }
  }

  /** Each record's key is `range(start, end + 1)`, its size
      `end - start` and its text `text[start:end + 1]`. */
  lemma RecordShape(text: string, ps: seq<Pair>, i: nat)
    requires SpansText(text, ps)
    requires i < |ps|
    ensures var r := BuildRecords(text, ps)[i];
      && r.start < r.end < |text|
      && r.key == Range(r.start, r.end + 1)
      && r.size == r.end - r.start
      && r.text == text[r.start..r.end + 1]
  {
    RecordAt(text, ps, i);
    SortedMember(ps, i);
    MadeShape(text, RowSorted(ps), i);
  }

  /** The `i`th pair in row order is one of the committed pairs. */
  lemma SortedMember(ps: seq<Pair>, i: nat)
    requires i < |ps|
    ensures RowSorted(ps)[i] in ps
  {
    var qs := RowSorted(ps);
    assert qs[i] in multiset(qs);
  }

  /** The record made from a pair inside the text has the pair's span. */
  lemma MadeShape(text: string, qs: seq<Pair>, i: nat)
    requires i < |qs| && qs[i].open < qs[i].close < |text|
    ensures var r := MakeRecord(text, qs, i);
      && r.start == qs[i].open && r.end == qs[i].close
      && r.key == Range(r.start, r.end + 1)
      && r.size == r.end - r.start
      && r.text == text[r.start..r.end + 1]
  {
  }

  /** The records come in ascending (size, start, end) order, one per
      committed pair. */
  lemma RecordsInRowOrder(text: string, ps: seq<Pair>)
    ensures |BuildRecords(text, ps)| == |ps|
    ensures multiset(RowSorted(ps)) == multiset(ps)
    ensures SortedBy(BuildRecords(text, ps), RecordOrder)
  {
    var qs, rs := RowSorted(ps), BuildRecords(text, ps);
    SortBySorted(ps, RowOrder);
    forall i | 0 <= i < |rs| ensures RecordOrder(rs[i]) == RowOrder(qs[i]) {
    }
  }

  /** Record `j` is built from the `j`th pair in row order. */
  lemma RecordAt(text: string, ps: seq<Pair>, j: nat)
    requires j < |ps|
    ensures BuildRecords(text, ps)[j] == MakeRecord(text, RowSorted(ps), j)
    ensures BuildRecords(text, ps)[j].key == SpanKey(RowSorted(ps)[j])
  {
  }

  /** The (start, end) span of each record. */
  function Spans(rs: seq<Record>): seq<Pair>
  {
    seq(|rs|, i requires 0 <= i < |rs| => Pair(rs[i].start, rs[i].end))
  }

  /** Each record comes from one of the committed pairs, and each pair
      gives a record. */
  lemma SpanChoice(text: string, ps: seq<Pair>, k: nat)
    requires SpansText(text, ps) && k < |ps|
    ensures var r := BuildRecords(text, ps)[k];
      && Pair(r.start, r.end) in ps && r.start < r.end < |text|
      && r.text == text[r.start..r.end + 1] && r.key == Range(r.start, r.end + 1)
  {
    var rs := BuildRecords(text, ps);
    RecordSpans(text, ps);
    assert Spans(rs)[k] in multiset(ps);
    RecordShape(text, ps, k);
  }

  /** Each committed pair gives a record with its span. */
  lemma PairRecorded(text: string, ps: seq<Pair>, i: nat) returns (k: nat)
    requires SpansText(text, ps) && i < |ps|
    ensures k < |ps| && BuildRecords(text, ps)[k].start == ps[i].open && BuildRecords(text, ps)[k].end == ps[i].close
  {
    var rs := BuildRecords(text, ps);
    RecordSpans(text, ps);
    assert ps[i] in multiset(Spans(rs));
    k :| 0 <= k < |rs| && Spans(rs)[k] == ps[i];
  }

  /** A pair that strictly encloses another gives a record with a child. */
  lemma EnclosingPairHasChild(text: string, ps: seq<Pair>, a: nat, b: nat) returns (i: nat)
    requires SpansText(text, ps) && a < |ps| && b < |ps|
    requires ps[a].open <= ps[b].open && ps[b].close <= ps[a].close && ps[a] != ps[b]
    ensures i < |BuildRecords(text, ps)| && |BuildRecords(text, ps)[i].children| > 0
  {
    var rs := BuildRecords(text, ps);
    i := PairRecorded(text, ps, a);
    var j := PairRecorded(text, ps, b);
    ChildrenExact(text, ps, i);
    assert Encloses(rs[i], rs[j]);
    assert rs[j].key in rs[i].children;
  }

  /** The records carry the committed spans in row order, so each
      committed pair gives exactly one record. */
  lemma RecordSpans(text: string, ps: seq<Pair>)
    requires SpansText(text, ps)
    ensures Spans(BuildRecords(text, ps)) == RowSorted(ps)
    ensures multiset(Spans(BuildRecords(text, ps))) == multiset(ps)
  {
    var qs, rs := RowSorted(ps), BuildRecords(text, ps);
    RecordsInRowOrder(text, ps);
    forall i | 0 <= i < |rs| ensures Spans(rs)[i] == qs[i] {
      SortedMember(ps, i);
      RecordAt(text, ps, i);
      MadeShape(text, qs, i);
    }
  }

  /** Record `j` encloses record `i` exactly when span `i` lies inside
      span `j`. */
  lemma RecordEnclosure(text: string, ps: seq<Pair>, i: nat, j: nat)
    requires SpansText(text, ps)
    requires i < |ps| && j < |ps|
    ensures Encloses(BuildRecords(text, ps)[j], BuildRecords(text, ps)[i]) <==> Inside(RowSorted(ps)[i], RowSorted(ps)[j])
  {
    RowSortedSpans(text, ps);
    RecordAt(text, ps, i);
    RecordAt(text, ps, j);
    CoveredStrictSubset(RowSorted(ps)[i], RowSorted(ps)[j]);
  }

  /** A record's parents are exactly the keys of the other records that
      strictly contain it. */
  lemma ParentsExact(text: string, ps: seq<Pair>, i: nat)
    requires SpansText(text, ps)
    requires i < |ps|
    ensures var rs := BuildRecords(text, ps);
      forall k :: k in rs[i].parents <==>
        exists j :: 0 <= j < |rs| && j != i && Encloses(rs[j], rs[i]) && k == rs[j].key
  {
    var qs, rs := RowSorted(ps), BuildRecords(text, ps);
    var raw := RelatedKeys(qs, i, |qs|, ParentTest);
    forall k ensures k in rs[i].parents <==> exists j :: 0 <= j < |rs| && j != i && Encloses(rs[j], rs[i]) && k == rs[j].key {
      RecordAt(text, ps, i);
      assert k in rs[i].parents <==> k in multiset(rs[i].parents);
      if k in raw {
        var j :| 0 <= j < |qs| && j != i && ParentTest(qs[i], qs[j]) && k == SpanKey(qs[j]);
        RecordEnclosure(text, ps, i, j);
        RecordAt(text, ps, j);
      }
      if exists j :: 0 <= j < |rs| && j != i && Encloses(rs[j], rs[i]) && k == rs[j].key {
        var j :| 0 <= j < |rs| && j != i && Encloses(rs[j], rs[i]) && k == rs[j].key;
        RecordEnclosure(text, ps, i, j);
        RecordAt(text, ps, j);
        assert ParentTest(qs[i], qs[j]);
      }
    }
  }

  /** A record's children are exactly the keys of the other records it
      strictly contains. */
  lemma ChildrenExact(text: string, ps: seq<Pair>, i: nat)
    requires SpansText(text, ps)
    requires i < |ps|
    ensures var rs := BuildRecords(text, ps);
      forall k :: k in rs[i].children <==>
        exists j :: 0 <= j < |rs| && j != i && Encloses(rs[i], rs[j]) && k == rs[j].key
  {
    var qs, rs := RowSorted(ps), BuildRecords(text, ps);
    var raw := RelatedKeys(qs, i, |qs|, ChildTest);
    forall k ensures k in rs[i].children <==> exists j :: 0 <= j < |rs| && j != i && Encloses(rs[i], rs[j]) && k == rs[j].key {
      RecordAt(text, ps, i);
      assert k in rs[i].children <==> k in multiset(rs[i].children);
      if k in raw {
        var j :| 0 <= j < |qs| && j != i && ChildTest(qs[i], qs[j]) && k == SpanKey(qs[j]);
        RecordEnclosure(text, ps, j, i);
        RecordAt(text, ps, j);
      }
      if exists j :: 0 <= j < |rs| && j != i && Encloses(rs[i], rs[j]) && k == rs[j].key {
        var j :| 0 <= j < |rs| && j != i && Encloses(rs[i], rs[j]) && k == rs[j].key;
        RecordEnclosure(text, ps, j, i);
        RecordAt(text, ps, j);
        assert ChildTest(qs[i], qs[j]);
      }
    }
  }

  /** A record's parents are sorted by ascending length, and parents of
      equal length keep their row order. */
  lemma ParentsOrder(text: string, ps: seq<Pair>, i: nat)
    requires i < |ps|
    ensures var r := BuildRecords(text, ps)[i];
      && SortedBy(r.parents, LenAscending)
      && forall v :: WithKey(r.parents, LenAscending, v)
                     == WithKey(RelatedKeys(RowSorted(ps), i, |ps|, ParentTest), LenAscending, v)
  {
    var raw := RelatedKeys(RowSorted(ps), i, |ps|, ParentTest);
    SortBySorted(raw, LenAscending);
    forall v ensures WithKey(SortBy(raw, LenAscending), LenAscending, v) == WithKey(raw, LenAscending, v) {
      SortByStable(raw, LenAscending, v);
    }
  }

  /** A record's children are sorted by descending length, and children of
      equal length keep their row order. */
  lemma ChildrenOrder(text: string, ps: seq<Pair>, i: nat)
    requires i < |ps|
    ensures var r := BuildRecords(text, ps)[i];
      && SortedBy(r.children, LenDescending)
      && forall v :: WithKey(r.children, LenDescending, v)
                     == WithKey(RelatedKeys(RowSorted(ps), i, |ps|, ChildTest), LenDescending, v)
  {
    var raw := RelatedKeys(RowSorted(ps), i, |ps|, ChildTest);
    SortBySorted(raw, LenDescending);
    forall v ensures WithKey(SortBy(raw, LenDescending), LenDescending, v) == WithKey(raw, LenDescending, v) {
      SortByStable(raw, LenDescending, v);
    }
  }

  predicate DistinctOpens(ps: seq<Pair>)
  {
    forall i, j :: 0 <= i < j < |ps| ==> ps[i].open != ps[j].open
  }

  predicate DistinctKeys(rs: seq<Record>)
  {
    forall i, j :: 0 <= i < j < |rs| ==> rs[i].key != rs[j].key
  }

  /** Committed pairs never share an open position, so no two records share
      a key. */
  lemma KeysDistinct(text: string, ps: seq<Pair>)
    requires DistinctOpens(ps)
    requires SpansText(text, ps)
    ensures DistinctKeys(BuildRecords(text, ps))
  {
    var qs, rs := RowSorted(ps), BuildRecords(text, ps);
    var open := (p: Pair) => p.open;
    assert DistinctBy(ps, open);
    SortByDistinct(ps, RowOrder, open);
    RowSortedSpans(text, ps);
    forall i, j | 0 <= i < j < |rs| ensures rs[i].key != rs[j].key {
      RecordAt(text, ps, i);
      RecordAt(text, ps, j);
      assert open(qs[i]) != open(qs[j]);
      assert rs[i].key[0] == qs[i].open && rs[j].key[0] == qs[j].open;
    }
  }

  /** B is among A's parents exactly when A is among B's children. */
  lemma ParentsChildrenDual(text: string, ps: seq<Pair>, a: nat, b: nat)
    requires DistinctOpens(ps)
    requires SpansText(text, ps)
    requires a < |ps| && b < |ps|
    ensures var rs := BuildRecords(text, ps);
      rs[b].key in rs[a].parents <==> rs[a].key in rs[b].children
  {
    var rs := BuildRecords(text, ps);
    KeysDistinct(text, ps);
    ParentsExact(text, ps, a);
    ChildrenExact(text, ps, b);
    if rs[b].key in rs[a].parents {
      var j :| 0 <= j < |rs| && j != a && Encloses(rs[j], rs[a]) && rs[b].key == rs[j].key;
      assert j == b;
    }
    if rs[a].key in rs[b].children {
      var j :| 0 <= j < |rs| && j != b && Encloses(rs[b], rs[j]) && rs[a].key == rs[j].key;
      assert j == a;
    }
  }

  /** With distinct keys, the dict holds every record under its own key. */
  lemma {:induction false} ToDictLookup(rs: seq<Record>, i: nat)
    requires DistinctKeys(rs)
    requires i < |rs|
    ensures rs[i].key in ToDict(rs) && ToDict(rs)[rs[i].key] == rs[i]
  {
    if i < |rs| - 1 {
      ToDictLookup(rs[..|rs| - 1], i);
    }
  }
}

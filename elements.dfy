/** `parse_elements(symb1, symb2, text)`: the matching rounds as the source
    runs them, over the lists `kla1`, `kla2`, `goodresults`,
    `goodresultsflat`, `aufresults` and `zuresults`, followed by the
    records of the hierarchy. */
module Elements {
  import opened Base
  import opened IndexAll
  import opened Matcher
  import opened Hierarchy

  /** What `parse_elements` returns: the values of its dict in insertion
      order, or the IndexError of a round that finds nothing. */
  function ParseElementsSpec(symb1: char, symb2: char, text: string): Result<seq<Record>>
  {
    match GreedyMatch(text, symb1, symb2)
    case Err(e) => Err(e)
    case Ok(ps) => Ok(BuildRecords(text, ps))
  }

  /** One round's scan: `allresultsfinal`, which holds the round's first
      admissible pair, or nothing. The filter `uu not in aufresults` and
      the test `auf in goodresultsflat` are both a skip of the open. */
  method ScanRound(text: string, symb1: char, symb2: char, kla1: seq<nat>, kla2: seq<nat>,
                   aufresults: seq<nat>, zuresults: seq<nat>, goodresultsflat: seq<nat>,
                   ghost bal: PairTest, ghost next: RoundScan, ghost done: seq<Pair>)
    returns (allresultsfinal: seq<Pair>)
    requires Decides(bal, text, symb1, symb2) && Scans(next, bal, kla1, kla2)
    requires Elems(goodresultsflat) == Used(done)
    requires forall x :: x in aufresults ==> x in goodresultsflat
    requires forall x :: x in zuresults ==> x in goodresultsflat
    ensures allresultsfinal == AsList(next(done))
  {
    ghost var used := Elems(goodresultsflat);
    assert next(done) == FirstPair(bal, Used(done), kla1, kla2, 0);
    allresultsfinal := [];
    var found := false;
    var a := 0;
    while a < |kla1|
      invariant 0 <= a <= |kla1|
      invariant !found && allresultsfinal == []
      invariant FirstPair(bal, used, kla1, kla2, 0) == FirstPair(bal, used, kla1, kla2, a)
      decreases |kla1| - a
    {
      var auf := kla1[a];
      if auf in aufresults || auf in goodresultsflat {
        OpenSkipped(bal, used, kla1, kla2, a);
        a := a + 1;
        continue;
      }
      var b := 0;
      while b < |kla2|
        invariant 0 <= b <= |kla2|
        invariant !found && allresultsfinal == []
        invariant FirstClose(bal, used, auf, kla2, 0) == FirstClose(bal, used, auf, kla2, b)
        decreases |kla2| - b
      {
        var zu := kla2[b];
        if zu in zuresults || zu in goodresultsflat {
          CloseSkipped(bal, used, auf, kla2, b);
          b := b + 1;
          continue;
        }
        if auf >= zu {
          CloseSkipped(bal, used, auf, kla2, b);
          b := b + 1;
          continue;
        }
        var t1 := PySlice(text, auf, zu + 1);
        assert Balanced(text, symb1, symb2, auf, zu) <==> Count(t1, symb1) == Count(t1, symb2);
        if Count(t1, symb1) != Count(t1, symb2) {
          CloseSkipped(bal, used, auf, kla2, b);
          b := b + 1;
          continue;
        }
        OpenTaken(bal, used, kla1, kla2, a, b);
        allresultsfinal := allresultsfinal + [Pair(auf, zu)];
        found := true;
        break;
      }
      if found {
        break;
      }
      OpenSkipped(bal, used, kla1, kla2, a);
      a := a + 1;
    }
  }

  /** The inner scan passes over a close that is not admissible. */
  lemma CloseSkipped(bal: PairTest, used: set<nat>, auf: nat, closes: seq<nat>, b: nat)
    requires b < |closes| && !Admissible(bal, used, auf, closes[b])
    ensures FirstClose(bal, used, auf, closes, b) == FirstClose(bal, used, auf, closes, b + 1)
  {
  }

  /** The outer scan passes over an open that is used or has no
      admissible close. */
  lemma OpenSkipped(bal: PairTest, used: set<nat>, opens: seq<nat>, closes: seq<nat>, a: nat)
    requires a < |opens|
    requires opens[a] in used || FirstClose(bal, used, opens[a], closes, 0).None?
    ensures FirstPair(bal, used, opens, closes, a) == FirstPair(bal, used, opens, closes, a + 1)
  {
  }

  /** The first admissible close of an unused open is the round's pair. */
  lemma OpenTaken(bal: PairTest, used: set<nat>, opens: seq<nat>, closes: seq<nat>, a: nat, b: nat)
    requires a < |opens| && b < |closes| && opens[a] !in used
    requires FirstClose(bal, used, opens[a], closes, 0) == FirstClose(bal, used, opens[a], closes, b)
    requires Admissible(bal, used, opens[a], closes[b])
    ensures FirstPair(bal, used, opens, closes, a) == Some(Pair(opens[a], closes[b]))
  {
  }

  /** `kla1` and `kla2`: the positions of `symb1`, last first, and of
      `symb2`, first first. */
  method ScanLists(symb1: char, symb2: char, text: string) returns (kla1: seq<nat>, kla2: seq<nat>)
    ensures kla1 == OpensDesc(text, symb1) && kla2 == ClosesAsc(text, symb2)
  {
    var occ1 := IndexAll.IndexAll(text, [symb1]);
    kla1 := Reverse(occ1);
    kla2 := IndexAll.IndexAll(text, [symb2]);
  }

  /** The `while` loop of `parse_elements`: `goodresults` after every
      round, or the IndexError of the first round that finds nothing. Every
      round either commits its pair or raises, so the source's
      `oldlen`/`newlen` guard never fires and is left out. */
  method MatchRounds(symb1: char, symb2: char, text: string, kla1: seq<nat>, kla2: seq<nat>,
                     ghost bal: PairTest, ghost next: RoundScan)
    returns (r: Result<seq<Pair>>)
    requires Decides(bal, text, symb1, symb2) && Scans(next, bal, kla1, kla2)
    ensures r == Rounds(next, [], Min(|kla1|, |kla2|))
  {
    var goodresults: seq<Pair> := [];
    var aufresults: seq<nat> := [];
    var zuresults: seq<nat> := [];
    var goodresultsflat: seq<nat> := [];
    var lilen := Min(|kla1|, |kla2|);
    ghost var outcome := Rounds(next, [], lilen);
    ghost var left: nat := lilen;
    while |aufresults| < lilen
      invariant |aufresults| == |goodresults| <= lilen
      invariant aufresults == Opens(goodresults) && zuresults == Closes(goodresults)
      invariant goodresultsflat == Flat(goodresults)
      invariant left == lilen - |goodresults|
      invariant Rounds(next, goodresults, left) == outcome
      decreases lilen - |aufresults|
    {
      FlatFacts(goodresults);
      var allresultsfinal := ScanRound(text, symb1, symb2, kla1, kla2, aufresults, zuresults, goodresultsflat, bal, next, goodresults);
      RoundsNext(next, goodresults, left, allresultsfinal);
      if allresultsfinal == [] {
        return Err(IndexError);
      }
      var best := allresultsfinal[0];
      ListsSnoc(goodresults, best);
      goodresults := goodresults + [best];
      goodresultsflat := goodresultsflat + [best.open, best.close];
      aufresults := aufresults + [best.open];
      zuresults := zuresults + [best.close];
      left := left - 1;
    }
    r := Ok(goodresults);
  }

  /** `parse_elements`: the matching rounds, then the records of the
      hierarchy built from the committed pairs. */
  method ParseElements(symb1: char, symb2: char, text: string) returns (r: Result<seq<Record>>)
    ensures r == ParseElementsSpec(symb1, symb2, text)
  {
    var kla1, kla2 := ScanLists(symb1, symb2, text);
    ghost var bal := BalanceTest(text, symb1, symb2);
    var goodresults := MatchRounds(symb1, symb2, text, kla1, kla2, bal, NextPair(bal, kla1, kla2));
    if goodresults.Err? {
      return Err(goodresults.error);
    }
    r := Ok(BuildRecords(text, goodresults.value));
  }

  /** `aufresults`, `zuresults` and `goodresultsflat`: the opens, the
      closes and both positions of the committed pairs, in order. */
  function Opens(ps: seq<Pair>): seq<nat>
  {
    if ps == [] then [] else Opens(ps[..|ps| - 1]) + [ps[|ps| - 1].open]
  }

  function Closes(ps: seq<Pair>): seq<nat>
  {
    if ps == [] then [] else Closes(ps[..|ps| - 1]) + [ps[|ps| - 1].close]
  }

  function Flat(ps: seq<Pair>): seq<nat>
  {
    if ps == [] then [] else Flat(ps[..|ps| - 1]) + [ps[|ps| - 1].open, ps[|ps| - 1].close]
  }

  lemma UsedSnoc(ps: seq<Pair>, p: Pair)
    ensures Used(ps + [p]) == Used(ps) + {p.open, p.close}
  {
    assert forall q :: q in ps + [p] <==> q in ps || q == p;
  }

  lemma ListsSnoc(ps: seq<Pair>, p: Pair)
    ensures Opens(ps + [p]) == Opens(ps) + [p.open]
    ensures Closes(ps + [p]) == Closes(ps) + [p.close]
    ensures Flat(ps + [p]) == Flat(ps) + [p.open, p.close]
  {
    assert (ps + [p])[..|ps|] == ps;
  }

  /** The positions `goodresultsflat` lists are the used ones, and every
      entry of `aufresults` and `zuresults` is among them. */
  lemma {:induction false} FlatFacts(ps: seq<Pair>)
    ensures Elems(Flat(ps)) == Used(ps)
    ensures forall x :: x in Opens(ps) ==> x in Flat(ps)
    ensures forall x :: x in Closes(ps) ==> x in Flat(ps)
  {
    if ps != [] {
      var init, p := ps[..|ps| - 1], ps[|ps| - 1];
      FlatFacts(init);
      assert ps == init + [p];
      UsedSnoc(init, p);
      ElemsAppend(Flat(init), [p.open, p.close]);
    }
  }

  // ---------------------------------------------------------------------
  // What parse_elements promises

  /** A record as `parse_elements` promises it: a span from a `symb1` to a
      later `symb2`, keyed by `range(start, end + 1)`, with `size` the
      distance between them and `text` the balanced slice between them. */
  predicate RecordOk(text: string, symb1: char, symb2: char, r: Record)
  {
    && r.start < r.end < |text|
    && text[r.start] == symb1 && text[r.end] == symb2
    && r.key == Range(r.start, r.end + 1)
    && r.size == r.end - r.start
    && r.text == text[r.start..r.end + 1]
    && Count(r.text, symb1) == Count(r.text, symb2)
  }

  /** The pairs of a successful match satisfy what the hierarchy lemmas
      need: they lie inside the text and share no open position. */
  lemma MatchedPairs(text: string, symb1: char, symb2: char)
    requires GreedyMatch(text, symb1, symb2).Ok?
    ensures var ps := GreedyMatch(text, symb1, symb2).value;
      && SpansText(text, ps)
      && DistinctOpens(ps)
      && (forall p :: p in ps ==> PairOk(text, symb1, symb2, p))
  {
    GreedyMatchSound(text, symb1, symb2);
    var ps := GreedyMatch(text, symb1, symb2).value;
    forall p | p in ps ensures PairOk(text, symb1, symb2, p) {
      var k :| 0 <= k < |ps| && ps[k] == p;
    }
    forall i, j | 0 <= i < j < |ps| ensures ps[i].open != ps[j].open {
      assert Apart(ps[i], ps[j]);
    }
  }

  /** The number of rounds is `min(text.count(symb1), text.count(symb2))`. */
  lemma RoundCountIsCount(text: string, symb1: char, symb2: char)
    ensures RoundCount(text, symb1, symb2) == Min(Count(text, symb1), Count(text, symb2))
  {
    OccurrencesCount(text, symb1, 0);
    OccurrencesCount(text, symb2, 0);
    assert text[0..] == text;
  }

  lemma RecordOfPair(text: string, symb1: char, symb2: char, ps: seq<Pair>, i: nat)
    requires forall p :: p in ps ==> PairOk(text, symb1, symb2, p)
    requires i < |ps|
    ensures RecordOk(text, symb1, symb2, BuildRecords(text, ps)[i])
  {
    var qs := RowSorted(ps);
    RecordAt(text, ps, i);
    SortedMember(ps, i);
    RecordOfOkPair(text, symb1, symb2, qs, i);
  }

  /** The record built from a balanced pair is a balanced record. */
  lemma RecordOfOkPair(text: string, symb1: char, symb2: char, qs: seq<Pair>, i: nat)
    requires i < |qs| && PairOk(text, symb1, symb2, qs[i])
    ensures RecordOk(text, symb1, symb2, MakeRecord(text, qs, i))
  {
    var p := qs[i];
    var r := MakeRecord(text, qs, i);
    RecordOkOf(text, symb1, symb2, p, r);
  }

  /** A record with a balanced pair's positions, key and text is a
      balanced record. */
  lemma RecordOkOf(text: string, symb1: char, symb2: char, p: Pair, r: Record)
    requires PairOk(text, symb1, symb2, p)
    requires r.start == p.open && r.end == p.close && r.size == p.close - p.open
    requires r.key == SpanKey(p) && r.text == PySlice(text, p.open, p.close + 1)
    ensures RecordOk(text, symb1, symb2, r)
  {
  }

  /** When `parse_elements` returns, it returns one record per round,
      `min(text.count(symb1), text.count(symb2))` of them, each a balanced
      span from a `symb1` to a later `symb2`, in ascending (size, start,
      end) order, with no key repeated. */
  lemma ElementsSound(symb1: char, symb2: char, text: string)
    ensures ParseElementsSpec(symb1, symb2, text).Ok? ==>
      var rs := ParseElementsSpec(symb1, symb2, text).value;
      && |rs| == Min(Count(text, symb1), Count(text, symb2))
      && SortedBy(rs, RecordOrder)
      && DistinctKeys(rs)
      && (forall r :: r in rs ==> RecordOk(text, symb1, symb2, r))
      && multiset(Spans(rs)) == multiset(GreedyMatch(text, symb1, symb2).value)
  {
    if GreedyMatch(text, symb1, symb2).Ok? {
      var ps := GreedyMatch(text, symb1, symb2).value;
      GreedyMatchSound(text, symb1, symb2);
      RoundCountIsCount(text, symb1, symb2);
      MatchedPairs(text, symb1, symb2);
      RecordsInRowOrder(text, ps);
      KeysDistinct(text, ps);
      RecordSpans(text, ps);
      var rs := BuildRecords(text, ps);
      forall r | r in rs ensures RecordOk(text, symb1, symb2, r) {
        var i :| 0 <= i < |rs| && rs[i] == r;
        RecordOfPair(text, symb1, symb2, ps, i);
      }
    }
  }
}

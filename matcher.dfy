/** The single-symbol matcher of `parse_elements`, as a specification.

    Each round scans the unused open positions from the rightmost to the
    leftmost and, for each, the unused close positions from the leftmost to
    the rightmost; the first close that lies after the open and passes the
    balance test is committed, and the round stops. The rounds run until
    there are as many pairs as the rarer symbol has occurrences; a round
    that finds nothing is the IndexError of `sorted([])[0]`.

    The scan is written over any pair test `bal`; `parse_elements` uses
    BalanceTest. Its properties hold for every test, so the lemmas about
    rounds never need to look inside the counting. */
module Matcher {
  import opened Base
  import opened IndexAll

  /** A committed pair: an open position and the close position it was
      matched with. */
  datatype Pair = Pair(open: nat, close: nat)

  type PairTest = (nat, nat) -> bool

  /** `text[auf:zu+1]` holds as many `symb1` as `symb2`. */
  predicate Balanced(text: string, symb1: char, symb2: char, auf: nat, zu: nat)
  {
    var t1 := PySlice(text, auf, zu + 1);
    Count(t1, symb1) == Count(t1, symb2)
  }

  function BalanceTest(text: string, symb1: char, symb2: char): PairTest
  {
    (auf: nat, zu: nat) => Balanced(text, symb1, symb2, auf, zu)
  }

  /** `bal` is the balance test of `text`: it holds for exactly the
      balanced slices. */
  ghost predicate Decides(bal: PairTest, text: string, symb1: char, symb2: char)
  {
    forall auf, zu {:trigger Balanced(text, symb1, symb2, auf, zu)} ::
      bal(auf, zu) == Balanced(text, symb1, symb2, auf, zu)
  }

  /** `zu` is a close position that a round may pair with `auf`, given the
      positions already `used`. */
  predicate Admissible(bal: PairTest, used: set<nat>, auf: nat, zu: nat)
  {
    zu !in used && auf < zu && bal(auf, zu)
  }

  /** The positions taken by committed pairs (`goodresultsflat`). */
  function Used(ps: seq<Pair>): set<nat>
  {
    (set p | p in ps :: p.open) + (set p | p in ps :: p.close)
  }

  /** The open positions in the order a round scans them, rightmost first
      (`kla1`), and the close positions, leftmost first (`kla2`). */
  function OpensDesc(text: string, symb1: char): seq<nat>
  {
    Reverse(Occurrences(text, [symb1], 0))
  }

  function ClosesAsc(text: string, symb2: char): seq<nat>
  {
    Occurrences(text, [symb2], 0)
  }

  /** The inner scan of a round from position `from` of `closes` on: the
      first close admissible for `auf`. */
  function FirstClose(bal: PairTest, used: set<nat>, auf: nat, closes: seq<nat>, from: nat): (r: Option<nat>)
    ensures r.Some? ==> r.value in closes && Admissible(bal, used, auf, r.value)
    decreases |closes| - from
  {
    if from >= |closes| then None
    else if Admissible(bal, used, auf, closes[from]) then Some(closes[from])
    else FirstClose(bal, used, auf, closes, from + 1)
  }

  /** The inner scan misses nothing: when it finds no close, none from
      `from` on is admissible. */
  lemma {:induction false} FirstCloseNone(bal: PairTest, used: set<nat>, auf: nat, closes: seq<nat>, from: nat)
    requires FirstClose(bal, used, auf, closes, from).None?
    ensures forall k :: from <= k < |closes| ==> !Admissible(bal, used, auf, closes[k])
    decreases |closes| - from
  {
    if from < |closes| {
      FirstCloseNone(bal, used, auf, closes, from + 1);
    }
  }

  /** Over increasing close positions the inner scan finds the leftmost
      admissible close. */
  lemma {:induction false} FirstCloseLeftmost(bal: PairTest, used: set<nat>, auf: nat, closes: seq<nat>, from: nat, k: nat)
    requires StrictlyIncreasing(closes)
    requires from <= k < |closes| && Admissible(bal, used, auf, closes[k])
    ensures FirstClose(bal, used, auf, closes, from).Some?
    ensures FirstClose(bal, used, auf, closes, from).value <= closes[k]
    decreases |closes| - from
  {
    if from < k && !Admissible(bal, used, auf, closes[from]) {
      FirstCloseLeftmost(bal, used, auf, closes, from + 1, k);
    }
  }

  /** One round from position `from` of `opens` on: the first unused open
      that has an admissible close, paired with its first admissible
      close. */
  function FirstPair(bal: PairTest, used: set<nat>, opens: seq<nat>, closes: seq<nat>, from: nat): (r: Option<Pair>)
    ensures r.Some? ==> r.value.open in opens && r.value.open !in used && r.value.close in closes
    ensures r.Some? ==> Admissible(bal, used, r.value.open, r.value.close)
    ensures r.Some? ==> FirstClose(bal, used, r.value.open, closes, 0) == Some(r.value.close)
    decreases |opens| - from
  {
    if from >= |opens| then None
    else
      var zu := if opens[from] in used then None else FirstClose(bal, used, opens[from], closes, 0);
      if zu.Some? then Some(Pair(opens[from], zu.value))
      else FirstPair(bal, used, opens, closes, from + 1)
  }

  /** A round that finds nothing has tried every unused open from `from`
      on against every close. */
  lemma {:induction false} FirstPairNone(bal: PairTest, used: set<nat>, opens: seq<nat>, closes: seq<nat>, from: nat)
    requires FirstPair(bal, used, opens, closes, from).None?
    ensures forall i, k ::
      (from <= i < |opens| && opens[i] !in used && 0 <= k < |closes|) ==> !Admissible(bal, used, opens[i], closes[k])
    decreases |opens| - from
  {
    if from < |opens| {
      FirstPairNone(bal, used, opens, closes, from + 1);
      if opens[from] !in used {
        FirstCloseNone(bal, used, opens[from], closes, 0);
      }
    }
  }

  /** Over decreasing open positions a round commits the rightmost unused
      open that has an admissible close. */
  lemma {:induction false} FirstPairRightmost(bal: PairTest, used: set<nat>, opens: seq<nat>, closes: seq<nat>,
                                             from: nat, i: nat, k: nat)
    requires StrictlyDecreasing(opens)
    requires from <= i < |opens| && opens[i] !in used && k < |closes|
    requires Admissible(bal, used, opens[i], closes[k])
    ensures FirstPair(bal, used, opens, closes, from).Some?
    ensures opens[i] <= FirstPair(bal, used, opens, closes, from).value.open
    decreases |opens| - from
  {
    var zu := if opens[from] in used then None else FirstClose(bal, used, opens[from], closes, 0);
    if zu.None? {
      if i == from {
        FirstCloseNone(bal, used, opens[i], closes, 0);
      }
      FirstPairRightmost(bal, used, opens, closes, from + 1, i, k);
    }
  }

  /** What one round finds, given the pairs committed before it. */
  type RoundScan = seq<Pair> -> Option<Pair>

  /** The round scan of `parse_elements`: the first admissible pair among
      the positions the committed pairs leave unused. */
  function NextPair(bal: PairTest, opens: seq<nat>, closes: seq<nat>): RoundScan
  {
    (done: seq<Pair>) => FirstPair(bal, Used(done), opens, closes, 0)
  }

  /** `next` is that scan. Stated for every list of committed pairs, so a
      caller that only passes the scan on never has to look inside it. */
  ghost predicate Scans(next: RoundScan, bal: PairTest, opens: seq<nat>, closes: seq<nat>)
  {
    forall done {:trigger FirstPair(bal, Used(done), opens, closes, 0)} ::
      next(done) == FirstPair(bal, Used(done), opens, closes, 0)
  }

  /** `rounds` more rounds of the scan `next` after the pairs `committed`
      so far. */
  function Rounds(next: RoundScan, committed: seq<Pair>, rounds: nat): Result<seq<Pair>>
    decreases rounds
  {
    if rounds == 0 then Ok(committed)
    else match next(committed)
      case None => Err(IndexError)
      case Some(p) => Rounds(next, committed + [p], rounds - 1)
  }

  /** One more round, given what its scan `found`: a round that finds
      nothing ends the run with the IndexError, one that finds a pair
      commits it. */
  lemma RoundsNext(next: RoundScan, committed: seq<Pair>, rounds: nat, found: seq<Pair>)
    requires rounds > 0
    requires found == AsList(next(committed))
    ensures found == [] ==> Rounds(next, committed, rounds) == Err(IndexError)
    ensures found != [] ==> Rounds(next, committed, rounds) == Rounds(next, committed + [found[0]], rounds - 1)
  {
  }

  /** The number of rounds: `min(len(kla1), len(kla2))`. */
  function RoundCount(text: string, symb1: char, symb2: char): nat
  {
    Min(|OpensDesc(text, symb1)|, |ClosesAsc(text, symb2)|)
  }

  /** The pairs of `parse_elements`, in the order they are committed. */
  function GreedyMatch(text: string, symb1: char, symb2: char): Result<seq<Pair>>
  {
    Rounds(NextPair(BalanceTest(text, symb1, symb2), OpensDesc(text, symb1), ClosesAsc(text, symb2)), [], RoundCount(text, symb1, symb2))
  }

  /** Two pairs share no position. */
  predicate Apart(p: Pair, q: Pair)
  {
    p.open != q.open && p.open != q.close && p.close != q.open && p.close != q.close
  }

  /** Every pair comes from the scan lists, opens before it closes and
      passes the test, and no position is paired twice. */
  predicate ValidRun(bal: PairTest, opens: seq<nat>, closes: seq<nat>, ps: seq<Pair>)
  {
    && (forall k :: 0 <= k < |ps| ==> ps[k].open in opens && ps[k].close in closes)
    && (forall k :: 0 <= k < |ps| ==> ps[k].open < ps[k].close && bal(ps[k].open, ps[k].close))
    && (forall i, j :: 0 <= i < j < |ps| ==> Apart(ps[i], ps[j]))
  }

  /** Every pair after the first `from` is the one its round's scan finds. */
  predicate EachRoundFirst(bal: PairTest, opens: seq<nat>, closes: seq<nat>, ps: seq<Pair>, from: nat)
  {
    forall k :: from <= k < |ps| ==> FirstPair(bal, Used(ps[..k]), opens, closes, 0) == Some(ps[k])
  }

  /** A committed pair keeps the run valid. */
  lemma CommitKeepsValid(bal: PairTest, opens: seq<nat>, closes: seq<nat>, committed: seq<Pair>, p: Pair)
    requires ValidRun(bal, opens, closes, committed)
    requires FirstPair(bal, Used(committed), opens, closes, 0) == Some(p)
    ensures ValidRun(bal, opens, closes, committed + [p])
  {
    var ps := committed + [p];
    forall i, j | 0 <= i < j < |ps| ensures Apart(ps[i], ps[j]) {
      if j == |committed| {
        assert ps[i] in committed;
        assert ps[i].open in Used(committed) && ps[i].close in Used(committed);
      }
    }
  }

  /** `ps` extends `committed` by exactly `rounds` valid pairs, each its
      round's first find. */
  predicate RanThrough(bal: PairTest, opens: seq<nat>, closes: seq<nat>, committed: seq<Pair>, rounds: nat, ps: seq<Pair>)
  {
    && |ps| == |committed| + rounds
    && ps[..|committed|] == committed
    && ValidRun(bal, opens, closes, ps)
    && EachRoundFirst(bal, opens, closes, ps, |committed|)
  }

  lemma RanThroughExtend(bal: PairTest, opens: seq<nat>, closes: seq<nat>, committed: seq<Pair>, rounds: nat, ps: seq<Pair>)
    requires rounds > 0
    requires FirstPair(bal, Used(committed), opens, closes, 0).Some?
    requires RanThrough(bal, opens, closes, committed + [FirstPair(bal, Used(committed), opens, closes, 0).value], rounds - 1, ps)
    ensures RanThrough(bal, opens, closes, committed, rounds, ps)
  {
    var c2 := committed + [FirstPair(bal, Used(committed), opens, closes, 0).value];
    assert ps[..|committed|] == committed by {
      assert ps[..|committed|] == ps[..|c2|][..|committed|];
    }
    forall k | |committed| <= k < |ps|
      ensures FirstPair(bal, Used(ps[..k]), opens, closes, 0) == Some(ps[k])
    {
      if k == |committed| {
        assert ps[k] == ps[..|c2|][k];
      }
    }
  }

  /** Running the rounds keeps the run valid, adds exactly one pair per
      round on success, and each added pair is its round's first find. */
  lemma {:induction false} RoundsSound(bal: PairTest, opens: seq<nat>, closes: seq<nat>, committed: seq<Pair>, rounds: nat)
    requires ValidRun(bal, opens, closes, committed)
    ensures Rounds(NextPair(bal, opens, closes), committed, rounds).Ok? ==>
      RanThrough(bal, opens, closes, committed, rounds, Rounds(NextPair(bal, opens, closes), committed, rounds).value)
    decreases rounds
  {
    if rounds == 0 {
      assert committed[..|committed|] == committed;
    } else {
      var next := FirstPair(bal, Used(committed), opens, closes, 0);
      if next.Some? {
        CommitKeepsValid(bal, opens, closes, committed, next.value);
        RoundsSound(bal, opens, closes, committed + [next.value], rounds - 1);
        var r := Rounds(NextPair(bal, opens, closes), committed + [next.value], rounds - 1);
        if r.Ok? {
          RanThroughExtend(bal, opens, closes, committed, rounds, r.value);
        }
      }
    }
  }

  /** `ps` extends `committed` by fewer than `rounds` pairs, each its
      round's first find, after which a round finds nothing. */
  predicate StuckAfter(bal: PairTest, opens: seq<nat>, closes: seq<nat>, committed: seq<Pair>, rounds: nat, ps: seq<Pair>)
  {
    && |committed| <= |ps| < |committed| + rounds
    && ps[..|committed|] == committed
    && EachRoundFirst(bal, opens, closes, ps, |committed|)
    && FirstPair(bal, Used(ps), opens, closes, 0).None?
  }

  lemma StuckExtend(bal: PairTest, opens: seq<nat>, closes: seq<nat>, committed: seq<Pair>, rounds: nat, ps: seq<Pair>)
    requires rounds > 0
    requires FirstPair(bal, Used(committed), opens, closes, 0).Some?
    requires StuckAfter(bal, opens, closes, committed + [FirstPair(bal, Used(committed), opens, closes, 0).value], rounds - 1, ps)
    ensures StuckAfter(bal, opens, closes, committed, rounds, ps)
  {
    var c2 := committed + [FirstPair(bal, Used(committed), opens, closes, 0).value];
    assert ps[..|committed|] == committed by {
      assert ps[..|committed|] == ps[..|c2|][..|committed|];
    }
    forall k | |committed| <= k < |ps|
      ensures FirstPair(bal, Used(ps[..k]), opens, closes, 0) == Some(ps[k])
    {
      if k == |committed| {
        assert ps[k] == ps[..|c2|][k];
      }
    }
  }

  /** When the rounds fail, some round found no candidate. */
  lemma {:induction false} RoundsFailure(bal: PairTest, opens: seq<nat>, closes: seq<nat>, committed: seq<Pair>, rounds: nat)
    returns (ps: seq<Pair>)
    requires Rounds(NextPair(bal, opens, closes), committed, rounds).Err?
    ensures StuckAfter(bal, opens, closes, committed, rounds, ps)
    decreases rounds
  {
    var next := FirstPair(bal, Used(committed), opens, closes, 0);
    if next.None? {
      ps := committed;
      assert ps[..|committed|] == committed;
    } else {
      ps := RoundsFailure(bal, opens, closes, committed + [next.value], rounds - 1);
      StuckExtend(bal, opens, closes, committed, rounds, ps);
    }
  }

  /** The scan lists are exactly the positions of the two symbols, opens
      decreasing and closes increasing. */
  lemma ScanListsOfText(text: string, symb1: char, symb2: char)
    ensures forall a :: a in OpensDesc(text, symb1) <==> 0 <= a < |text| && text[a] == symb1
    ensures forall z :: z in ClosesAsc(text, symb2) <==> 0 <= z < |text| && text[z] == symb2
    ensures StrictlyDecreasing(OpensDesc(text, symb1))
    ensures StrictlyIncreasing(ClosesAsc(text, symb2))
  {
    ElementOccurrences(text, symb1);
    ElementOccurrences(text, symb2);
    ReverseOfIncreasing(Occurrences(text, [symb1], 0));
  }

  /** A pair opens on `symb1`, closes later on `symb2`, and is balanced. */
  predicate PairOk(text: string, symb1: char, symb2: char, p: Pair)
  {
    p.open < p.close < |text| && text[p.open] == symb1 && text[p.close] == symb2
    && Balanced(text, symb1, symb2, p.open, p.close)
  }

  /** The matching invariant: every pair is well formed and balanced, and no
      position is paired twice. */
  predicate ValidPairs(text: string, symb1: char, symb2: char, ps: seq<Pair>)
  {
    && (forall k :: 0 <= k < |ps| ==> PairOk(text, symb1, symb2, ps[k]))
    && (forall i, j :: 0 <= i < j < |ps| ==> Apart(ps[i], ps[j]))
  }

  /** What `parse_elements` promises of its pairs when it returns: one per
      round, each well formed and balanced, no position used twice, and
      each the first find of its round's scan. */
  lemma GreedyMatchSound(text: string, symb1: char, symb2: char)
    ensures GreedyMatch(text, symb1, symb2).Ok? ==>
      var ps := GreedyMatch(text, symb1, symb2).value;
      && |ps| == RoundCount(text, symb1, symb2)
      && ValidPairs(text, symb1, symb2, ps)
      && EachRoundFirst(BalanceTest(text, symb1, symb2), OpensDesc(text, symb1), ClosesAsc(text, symb2), ps, 0)
  {
    var bal, opens, closes := BalanceTest(text, symb1, symb2), OpensDesc(text, symb1), ClosesAsc(text, symb2);
    RoundsSound(bal, opens, closes, [], RoundCount(text, symb1, symb2));
    var r := GreedyMatch(text, symb1, symb2);
    if r.Ok? {
      ScanListsOfText(text, symb1, symb2);
      forall k | 0 <= k < |r.value| ensures PairOk(text, symb1, symb2, r.value[k]) {
        assert r.value[k].open in opens && r.value[k].close in closes;
        assert bal(r.value[k].open, r.value[k].close);
      }
    }
  }

  /** The commitment order of each round, stated on positions: the open of
      the pair committed after `done` is the rightmost unused open that has
      an admissible close at all, and its close is the leftmost admissible
      close for it. */
  lemma CommitmentOrder(text: string, symb1: char, symb2: char, done: seq<Pair>, p: Pair)
    requires FirstPair(BalanceTest(text, symb1, symb2), Used(done), OpensDesc(text, symb1), ClosesAsc(text, symb2), 0) == Some(p)
    ensures PairOk(text, symb1, symb2, p)
    ensures p.open !in Used(done) && p.close !in Used(done)
    ensures forall z ::
      (0 <= z < |text| && text[z] == symb2 && z !in Used(done) && p.open < z
       && Balanced(text, symb1, symb2, p.open, z)) ==> p.close <= z
    ensures forall a, z ::
      (0 <= a < |text| && text[a] == symb1 && a !in Used(done) && 0 <= z < |text| && text[z] == symb2
       && z !in Used(done) && a < z && Balanced(text, symb1, symb2, a, z))
      ==> a <= p.open
  {
    var bal, used, opens, closes := BalanceTest(text, symb1, symb2), Used(done), OpensDesc(text, symb1), ClosesAsc(text, symb2);
    ScanListsOfText(text, symb1, symb2);
    assert bal(p.open, p.close);
    forall z | 0 <= z < |text| && text[z] == symb2 && z !in used && p.open < z && Balanced(text, symb1, symb2, p.open, z)
      ensures p.close <= z
    {
      assert z in closes && Admissible(bal, used, p.open, z);
      var k :| 0 <= k < |closes| && closes[k] == z;
      FirstCloseLeftmost(bal, used, p.open, closes, 0, k);
    }
    forall a, z | 0 <= a < |text| && text[a] == symb1 && a !in used && 0 <= z < |text| && text[z] == symb2
                  && z !in used && a < z && Balanced(text, symb1, symb2, a, z)
      ensures a <= p.open
    {
      assert a in opens && z in closes && Admissible(bal, used, a, z);
      var i :| 0 <= i < |opens| && opens[i] == a;
      var k :| 0 <= k < |closes| && closes[k] == z;
      FirstPairRightmost(bal, used, opens, closes, 0, i, k);
    }
  }

  /** When `parse_elements` raises, it is because a round found no
      admissible pair among the positions still unused. */
  lemma GreedyMatchFailure(text: string, symb1: char, symb2: char) returns (ps: seq<Pair>)
    requires GreedyMatch(text, symb1, symb2).Err?
    ensures |ps| < RoundCount(text, symb1, symb2)
    ensures EachRoundFirst(BalanceTest(text, symb1, symb2), OpensDesc(text, symb1), ClosesAsc(text, symb2), ps, 0)
    ensures forall a, z ::
      (0 <= a < |text| && text[a] == symb1 && a !in Used(ps) && 0 <= z < |text| && text[z] == symb2
       && z !in Used(ps) && a < z) ==> !Balanced(text, symb1, symb2, a, z)
  {
    var bal, opens, closes := BalanceTest(text, symb1, symb2), OpensDesc(text, symb1), ClosesAsc(text, symb2);
    ps := RoundsFailure(bal, opens, closes, [], RoundCount(text, symb1, symb2));
    FirstPairNone(bal, Used(ps), opens, closes, 0);
    ScanListsOfText(text, symb1, symb2);
    forall a, z | 0 <= a < |text| && text[a] == symb1 && a !in Used(ps) && 0 <= z < |text| && text[z] == symb2
                  && z !in Used(ps) && a < z
      ensures !Balanced(text, symb1, symb2, a, z)
    {
      assert a in opens && z in closes;
      var i :| 0 <= i < |opens| && opens[i] == a;
      var k :| 0 <= k < |closes| && closes[k] == z;
      assert !Admissible(bal, Used(ps), a, z);
    }
  }
}

/** `parse_multipairs(open_close_pairs, text)`: the multi-letter adapter
    run once per pair of delimiters, its result stored under the pair. */
module Multipairs {
  import opened Base
  import opened Hierarchy
  import opened MultiLetters

  /** A pair of delimiters, `(symb1, symb2)`. */
  type Delimiters = (string, string)

  /** The adapter a run calls for each pair: `parse_elements_multi_letters`
      as written, which raises on nested spans, or the corrected one. */
  datatype Adapter = AsWritten | Corrected

  predicate NonEmptyPairs(pairs: seq<Delimiters>)
  {
    forall d :: d in pairs ==> |d.0| > 0 && |d.1| > 0
  }

  /** What the chosen adapter returns for one pair. */
  function Adapt(adapter: Adapter, blocks: seq<seq<char>>, d: Delimiters, text: string): Result<map<seq<int>, Record>>
    requires |d.0| > 0 && |d.1| > 0
  {
    match adapter
    case AsWritten => MultiLettersAsWritten(blocks, d.0, d.1, text)
    case Corrected => MultiLetters.MultiLetters(blocks, d.0, d.1, text)
  }

  /** The chosen adapter as a function of the pair. */
  function Run(adapter: Adapter, blocks: seq<seq<char>>, text: string): Delimiters --> Result<map<seq<int>, Record>>
  {
    (d: Delimiters) requires |d.0| > 0 && |d.1| > 0 => Adapt(adapter, blocks, d, text)
  }

  /** The `results` dict after the loop has run `run` over `pairs`: each
      pair stores what `run` returns for it, a pair seen again overwrites
      its earlier entry, and a pair for which `run` raises is skipped. */
  function Collect(run: Delimiters --> Result<map<seq<int>, Record>>, pairs: seq<Delimiters>)
    : map<Delimiters, map<seq<int>, Record>>
    requires forall d :: d in pairs ==> run.requires(d)
  {
    if pairs == [] then map[]
    else
      var d := pairs[|pairs| - 1];
      var results := Collect(run, pairs[..|pairs| - 1]);
      match run(d)
      case Err(_) => results
      case Ok(pe2) => results[d := pe2]
  }

  /** `parse_multipairs(open_close_pairs, text)` with the chosen adapter. */
  function Multipairs(adapter: Adapter, blocks: seq<seq<char>>, pairs: seq<Delimiters>, text: string)
    : map<Delimiters, map<seq<int>, Record>>
    requires NonEmptyPairs(pairs)
  {
    Collect(Run(adapter, blocks, text), pairs)
  }

  /** The loop keeps exactly the pairs whose call returns, each with that
      result; the call depends only on the pair, so for a repeated pair the
      last result stored is this one too. */
  lemma {:induction false} CollectExact(run: Delimiters --> Result<map<seq<int>, Record>>, pairs: seq<Delimiters>)
    requires forall d :: d in pairs ==> run.requires(d)
    ensures forall d :: d in Collect(run, pairs) <==> d in pairs && run(d).Ok?
    ensures forall d :: d in Collect(run, pairs) ==> d in pairs && Collect(run, pairs)[d] == run(d).value
  {
    if pairs != [] {
      var init, last := pairs[..|pairs| - 1], pairs[|pairs| - 1];
      assert forall d :: d in init ==> d in pairs;
      CollectExact(run, init);
      var res := Collect(run, pairs);
      forall d ensures d in res <==> d in pairs && run(d).Ok? {
        assert d in pairs <==> d in init || d == last;
      }
    }
  }

  /** The dict holds exactly the given pairs whose adapter call returns,
      each with that result; a pair whose adapter raises is absent. */
  lemma MultipairsExact(adapter: Adapter, blocks: seq<seq<char>>, pairs: seq<Delimiters>, text: string)
    requires NonEmptyPairs(pairs)
    ensures forall d :: d in Multipairs(adapter, blocks, pairs, text) <==> d in pairs && Adapt(adapter, blocks, d, text).Ok?
    ensures forall d :: d in Multipairs(adapter, blocks, pairs, text) ==>
      Multipairs(adapter, blocks, pairs, text)[d] == Adapt(adapter, blocks, d, text).value
  {
    CollectExact(Run(adapter, blocks, text), pairs);
  }

  /** With the corrected adapter no pair is dropped. */
  lemma CorrectedKeepsAll(blocks: seq<seq<char>>, pairs: seq<Delimiters>, text: string)
    requires NonEmptyPairs(pairs)
    ensures forall d :: d in Multipairs(Corrected, blocks, pairs, text) <==> d in pairs
  {
    MultipairsExact(Corrected, blocks, pairs, text);
  }

  /** One turn of the loop: the outcome of `run` for the next pair is
      stored under it, or skipped when `run` raises. */
  lemma CollectStep(run: Delimiters --> Result<map<seq<int>, Record>>, pairs: seq<Delimiters>, i: nat,
                    prev: map<Delimiters, map<seq<int>, Record>>, next: map<Delimiters, map<seq<int>, Record>>)
    requires (forall d :: d in pairs ==> run.requires(d)) && i < |pairs|
    requires prev == Collect(run, pairs[..i])
    requires next == if run(pairs[i]).Ok? then prev[pairs[i] := run(pairs[i]).value] else prev
    ensures next == Collect(run, pairs[..i + 1])
  {
    var ps := pairs[..i + 1];
    assert ps[..|ps| - 1] == pairs[..i];
    assert ps[|ps| - 1] == pairs[i];
  }

  lemma NonEmptyPrefix(pairs: seq<Delimiters>, j: nat)
    requires NonEmptyPairs(pairs) && j <= |pairs|
    ensures NonEmptyPairs(pairs[..j])
  {
    forall d | d in pairs[..j] ensures d in pairs {
      var k :| 0 <= k < j && pairs[..j][k] == d;
      assert pairs[k] == d;
    }
  }

  /** The loop of `parse_multipairs`: each pair's adapter call either
      stores its result under the pair or raises, and then the pair is
      skipped.  With `AsWritten` this is the loop as the repository runs
      it. */
  method ParseMultipairs(adapter: Adapter, blocks: seq<seq<char>>, pairs: seq<Delimiters>, text: string)
    returns (results: map<Delimiters, map<seq<int>, Record>>)
    requires NonEmptyPairs(pairs)
    ensures results == Multipairs(adapter, blocks, pairs, text)
  {
    ghost var run := Run(adapter, blocks, text);
    results := map[];
    var i := 0;
    while i < |pairs|
      invariant 0 <= i <= |pairs|
      invariant forall d :: d in pairs[..i] ==> run.requires(d)
      invariant results == Collect(run, pairs[..i])
      decreases |pairs| - i
    {
      var d := pairs[i];
      assert d in pairs;
      var pe2 := CallAdapter(adapter, blocks, d, text);
      ghost var prev := results;
      if pe2.Ok? {
        results := results[d := pe2.value];
      }
      CollectStep(run, pairs, i, prev, results);
      NonEmptyPrefix(pairs, i + 1);
      i := i + 1;
    }
    assert pairs[..i] == pairs;
  }

  /** One call of the chosen adapter. */
  method CallAdapter(adapter: Adapter, blocks: seq<seq<char>>, d: Delimiters, text: string)
    returns (pe2: Result<map<seq<int>, Record>>)
    requires |d.0| > 0 && |d.1| > 0
    ensures pe2 == Run(adapter, blocks, text)(d)
  {
    var (symb1, symb2) := d;
    if adapter == AsWritten {
      pe2 := ParseElementsMultiLetters(blocks, symb1, symb2, text);
    } else {
      pe2 := MultiLetters.MultiLetters(blocks, symb1, symb2, text);
    }
  }
}

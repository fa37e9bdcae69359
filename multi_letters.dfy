/** `parse_elements_multi_letters(symb1, symb2, text)`: delimiters of any
    length, reduced to the one-character matcher.

    Two characters absent from the text are taken from a catalogue of
    candidates (the Unicode block table of the source, here a parameter),
    every `symb1` of the text is replaced by the first and then every
    `symb2` by the second, `parse_elements` runs on that working text, and
    its spans are carried back to positions of the original text.

    The working text and the original are related by Restore: reading each
    placeholder back as the delimiter it replaced gives the original text
    again (RoundTrip). That relation is what carries a position of the
    working text back to the original (Origin). */
module MultiLetters {
  import opened Base
  import opened IndexAll
  import opened Matcher
  import opened Hierarchy
  import opened Elements

  // ---------------------------------------------------------------------
  // The working text

  /** `s.replace(pat, put)` for a non-empty `pat` and a one-character `put`:
      the occurrences of `pat`, found left to right and each search resuming
      after the previous occurrence, are each replaced by `put`. */
  function Replace(s: string, pat: string, put: char): string
    requires |pat| > 0
    decreases |s|
  {
    if |s| < |pat| then s
    else if s[..|pat|] == pat then [put] + Replace(s[|pat|..], pat, put)
    else [s[0]] + Replace(s[1..], pat, put)
  }

  /** `text.replace(symb1, startletter).replace(symb2, endletter)`. */
  function Working(text: string, symb1: string, symb2: string, c1: char, c2: char): string
    requires |symb1| > 0 && |symb2| > 0
  {
    Replace(Replace(text, symb1, c1), symb2, c2)
  }

  /** What a character of the working text stands for in the original. */
  function Token(ch: char, c1: char, symb1: string, c2: char, symb2: string): string
  {
    if ch == c1 then symb1 else if ch == c2 then symb2 else [ch]
  }

  /** The working text read back: every placeholder turned back into the
      delimiter it replaced. */
  function Restore(w: string, c1: char, symb1: string, c2: char, symb2: string): string
  {
    if w == [] then [] else Token(w[0], c1, symb1, c2, symb2) + Restore(w[1..], c1, symb1, c2, symb2)
  }

  lemma {:induction false} RestoreAppend(a: string, b: string, c1: char, symb1: string, c2: char, symb2: string)
    ensures Restore(a + b, c1, symb1, c2, symb2) == Restore(a, c1, symb1, c2, symb2) + Restore(b, c1, symb1, c2, symb2)
  {
    if a == [] {
      assert a + b == b;
    } else {
      assert (a + b)[1..] == a[1..] + b;
      RestoreAppend(a[1..], b, c1, symb1, c2, symb2);
    }
  }

  /** A text without placeholders reads back as itself. */
  lemma {:induction false} RestorePlain(s: string, c1: char, symb1: string, c2: char, symb2: string)
    requires c1 !in s && c2 !in s
    ensures Restore(s, c1, symb1, c2, symb2) == s
  {
    if s != [] {
      RestorePlain(s[1..], c1, symb1, c2, symb2);
      assert s == [s[0]] + s[1..];
    }
  }

  /** Replacing adds no character other than the placeholder. */
  lemma {:induction false} ReplaceChars(s: string, pat: string, put: char, ch: char)
    requires |pat| > 0
    ensures ch in Replace(s, pat, put) ==> ch in s || ch == put
    decreases |s|
  {
    if |s| >= |pat| {
      if s[..|pat|] == pat {
        ReplaceChars(s[|pat|..], pat, put, ch);
      } else {
        ReplaceChars(s[1..], pat, put, ch);
      }
    }
  }

  /** Reading back a character followed by a text. */
  lemma RestoreCons(ch: char, t: string, c1: char, symb1: string, c2: char, symb2: string)
    ensures Restore([ch] + t, c1, symb1, c2, symb2) == Token(ch, c1, symb1, c2, symb2) + Restore(t, c1, symb1, c2, symb2)
  {
    assert ([ch] + t)[1..] == t;
  }

  /** The first replacement is undone by reading back. */
  lemma {:induction false} ReplaceOpenRestores(s: string, c1: char, symb1: string, c2: char, symb2: string)
    requires |symb1| > 0 && c1 !in s && c2 !in s
    ensures Restore(Replace(s, symb1, c1), c1, symb1, c2, symb2) == s
    decreases |s|
  {
    if |s| < |symb1| {
      RestorePlain(s, c1, symb1, c2, symb2);
    } else if s[..|symb1|] == symb1 {
      var rest := s[|symb1|..];
      assert s == symb1 + rest;
      ReplaceOpenRestores(rest, c1, symb1, c2, symb2);
      RestoreCons(c1, Replace(rest, symb1, c1), c1, symb1, c2, symb2);
    } else {
      var rest := s[1..];
      assert s == [s[0]] + rest;
      ReplaceOpenRestores(rest, c1, symb1, c2, symb2);
      RestoreCons(s[0], Replace(rest, symb1, c1), c1, symb1, c2, symb2);
    }
  }

  /** The second replacement reads back as the text it was applied to,
      provided the close delimiter does not hold the open placeholder. */
  lemma {:induction false} ReplaceCloseRestores(w: string, c1: char, symb1: string, c2: char, symb2: string)
    requires |symb2| > 0 && c2 !in w && c1 != c2 && c1 !in symb2
    ensures Restore(Replace(w, symb2, c2), c1, symb1, c2, symb2) == Restore(w, c1, symb1, c2, symb2)
    decreases |w|
  {
    if |w| < |symb2| {
    } else if w[..|symb2|] == symb2 {
      var rest := w[|symb2|..];
      assert w == symb2 + rest;
      ReplaceCloseRestores(rest, c1, symb1, c2, symb2);
      RestoreCons(c2, Replace(rest, symb2, c2), c1, symb1, c2, symb2);
      RestoreAppend(symb2, rest, c1, symb1, c2, symb2);
      RestorePlain(symb2, c1, symb1, c2, symb2);
    } else {
      var rest := w[1..];
      assert w == [w[0]] + rest;
      ReplaceCloseRestores(rest, c1, symb1, c2, symb2);
      RestoreCons(w[0], Replace(rest, symb2, c2), c1, symb1, c2, symb2);
      RestoreCons(w[0], rest, c1, symb1, c2, symb2);
    }
  }

  /** Round trip: reading the working text back gives the original text,
      when the placeholders are two different characters absent from the
      text and the close delimiter does not contain the open placeholder
      (true whenever every character of `symb2` occurs in the text). */
  lemma RoundTrip(text: string, symb1: string, symb2: string, c1: char, c2: char)
    requires |symb1| > 0 && |symb2| > 0
    requires c1 !in text && c2 !in text && c1 != c2 && c1 !in symb2
    ensures Restore(Working(text, symb1, symb2, c1, c2), c1, symb1, c2, symb2) == text
  {
    var w1 := Replace(text, symb1, c1);
    ReplaceOpenRestores(text, c1, symb1, c2, symb2);
    ReplaceChars(text, symb1, c1, c2);
    ReplaceCloseRestores(w1, c1, symb1, c2, symb2);
  }

  // ---------------------------------------------------------------------
  // Positions of the working text, carried back

  /** The position in the original text where position `i` of the working
      text begins: the length of what the first `i` characters read back
      as. */
  function Origin(w: string, i: nat, c1: char, symb1: string, c2: char, symb2: string): nat
    requires i <= |w|
  {
    |Restore(w[..i], c1, symb1, c2, symb2)|
  }

  lemma {:induction false} RestoreLength(w: string, c1: char, symb1: string, c2: char, symb2: string)
    requires |symb1| > 0 && |symb2| > 0
    ensures |Restore(w, c1, symb1, c2, symb2)| >= |w|
  {
    if w != [] {
      RestoreLength(w[1..], c1, symb1, c2, symb2);
    }
  }

  /** Later positions of the working text begin later in the original. */
  lemma OriginIncreasing(w: string, i: nat, j: nat, c1: char, symb1: string, c2: char, symb2: string)
    requires |symb1| > 0 && |symb2| > 0
    requires i < j <= |w|
    ensures Origin(w, i, c1, symb1, c2, symb2) < Origin(w, j, c1, symb1, c2, symb2)
  {
    assert w[..j] == w[..i] + w[i..j];
    RestoreAppend(w[..i], w[i..j], c1, symb1, c2, symb2);
    RestoreLength(w[i..j], c1, symb1, c2, symb2);
  }

  /** The characters `s..e` of the working text stand for the original text
      between their origins. */
  lemma SpanRestored(text: string, w: string, s: nat, e: nat, c1: char, symb1: string, c2: char, symb2: string)
    requires Restore(w, c1, symb1, c2, symb2) == text
    requires s <= e <= |w|
    ensures Origin(w, s, c1, symb1, c2, symb2) <= Origin(w, e, c1, symb1, c2, symb2) <= |text|
    ensures text[Origin(w, s, c1, symb1, c2, symb2)..Origin(w, e, c1, symb1, c2, symb2)]
         == Restore(w[s..e], c1, symb1, c2, symb2)
  {
    assert w[..e] == w[..s] + w[s..e];
    assert w == w[..e] + w[e..];
    RestoreAppend(w[..s], w[s..e], c1, symb1, c2, symb2);
    RestoreAppend(w[..e], w[e..], c1, symb1, c2, symb2);
  }

  /** One character of the working text stands for its token of the
      original, between its origin and the next. */
  lemma TokenRestored(text: string, w: string, i: nat, c1: char, symb1: string, c2: char, symb2: string)
    requires Restore(w, c1, symb1, c2, symb2) == text && i < |w|
    ensures Origin(w, i, c1, symb1, c2, symb2) <= Origin(w, i + 1, c1, symb1, c2, symb2) <= |text|
    ensures text[Origin(w, i, c1, symb1, c2, symb2)..Origin(w, i + 1, c1, symb1, c2, symb2)]
         == Token(w[i], c1, symb1, c2, symb2)
  {
    SpanRestored(text, w, i, i + 1, c1, symb1, c2, symb2);
    assert w[i..i + 1] == [w[i]];
    assert w[i..i + 1][1..] == [];
  }

  // ---------------------------------------------------------------------
  // The placeholders

  /** The candidates in the order the source tries them: block after block
      of the catalogue, each block in code-point order. */
  function Flatten(blocks: seq<seq<char>>): seq<char>
  {
    if blocks == [] then [] else Flatten(blocks[..|blocks| - 1]) + blocks[|blocks| - 1]
  }

  /** The candidates that do not occur in the text, in order. */
  function Absent(cs: seq<char>, text: string): seq<char>
  {
    if cs == [] then []
    else Absent(cs[..|cs| - 1], text) + (if cs[|cs| - 1] in text then [] else [cs[|cs| - 1]])
  }

  /** The absent candidates are exactly the candidates not in the text. */
  lemma {:induction false} AbsentMembers(cs: seq<char>, text: string)
    ensures forall ch :: ch in Absent(cs, text) <==> ch in cs && ch !in text
  {
    if cs != [] {
      AbsentMembers(cs[..|cs| - 1], text);
      assert cs == cs[..|cs| - 1] + [cs[|cs| - 1]];
    }
  }

  lemma {:induction false} AbsentAppend(a: seq<char>, b: seq<char>, text: string)
    ensures Absent(a + b, text) == Absent(a, text) + Absent(b, text)
    decreases |b|
  {
    if b != [] {
      var b0 := b[..|b| - 1];
      assert (a + b)[..|a + b| - 1] == a + b0;
      AbsentAppend(a, b0, text);
    } else {
      assert a + b == a;
    }
  }

  predicate NoDuplicates(cs: seq<char>)
  {
    forall i, j :: 0 <= i < j < |cs| ==> cs[i] != cs[j]
  }

  /** The first two absent candidates: `startletter` and `endletter`, None
      where the source leaves them `""`. */
  function FirstTwo(a: seq<char>): (Option<char>, Option<char>)
  {
    (if |a| >= 1 then Some(a[0]) else None, if |a| >= 2 then Some(a[1]) else None)
  }

  function Placeholders(blocks: seq<seq<char>>, text: string): (Option<char>, Option<char>)
  {
    FirstTwo(Absent(Flatten(blocks), text))
  }

  /** The placeholders are candidates absent from the text, the first one
      always found when any candidate is absent and the second when two
      are; with a catalogue that repeats no character they differ. */
  lemma {:induction false} PlaceholdersChosen(blocks: seq<seq<char>>, text: string)
    ensures var (s, e) := Placeholders(blocks, text);
      && (s.None? <==> forall ch :: ch in Flatten(blocks) ==> ch in text)
      && (s.Some? ==> s.value in Flatten(blocks) && s.value !in text)
      && (e.Some? ==> e.value in Flatten(blocks) && e.value !in text)
      && (e.None? && s.Some? ==> forall ch :: ch in Flatten(blocks) && ch !in text ==> ch == s.value)
      && (NoDuplicates(Flatten(blocks)) && s.Some? && e.Some? ==> s.value != e.value)
  {
    var a := Absent(Flatten(blocks), text);
    AbsentMembers(Flatten(blocks), text);
    if NoDuplicates(Flatten(blocks)) {
      AbsentNoDuplicates(Flatten(blocks), text);
    }
    if |a| >= 1 {
      assert a[0] in a;
    }
    if |a| >= 2 {
      assert a[1] in a;
    }
    if |a| == 1 {
      forall ch | ch in Flatten(blocks) && ch !in text ensures ch == a[0] {
        assert ch in a;
      }
    }
  }

  lemma {:induction false} AbsentNoDuplicates(cs: seq<char>, text: string)
    requires NoDuplicates(cs)
    ensures NoDuplicates(Absent(cs, text))
  {
    if cs != [] {
      var init := cs[..|cs| - 1];
      assert NoDuplicates(init);
      AbsentNoDuplicates(init, text);
      AbsentMembers(init, text);
      assert cs[|cs| - 1] !in init;
    }
  }

  /** The first two absent candidates of a prefix that already has two are
      those of the whole. */
  lemma FirstTwoPrefix(a: seq<char>, b: seq<char>, text: string)
    requires |Absent(a, text)| >= 2
    ensures |Absent(a + b, text)| >= 2
    ensures FirstTwo(Absent(a + b, text)) == FirstTwo(Absent(a, text))
  {
    AbsentAppend(a, b, text);
  }

  lemma FlattenSnoc(blocks: seq<seq<char>>, n: nat)
    requires n < |blocks|
    ensures Flatten(blocks[..n + 1]) == Flatten(blocks[..n]) + blocks[n]
  {
    assert blocks[..n + 1][..n] == blocks[..n];
  }

  /** The two nested loops over the catalogue: take the first candidate
      absent from the text as `startletter`, the next as `endletter`, and
      stop. */
  method PickPlaceholders(blocks: seq<seq<char>>, text: string)
    returns (startletter: Option<char>, endletter: Option<char>)
    ensures (startletter, endletter) == Placeholders(blocks, text)
  {
    startletter, endletter := None, None;
    var n := 0;
    while n < |blocks|
      invariant 0 <= n <= |blocks|
      invariant |Absent(Flatten(blocks[..n]), text)| <= 1
      invariant (startletter, endletter) == FirstTwo(Absent(Flatten(blocks[..n]), text))
      decreases |blocks| - n
    {
      FlattenSnoc(blocks, n);
      startletter, endletter := ScanBlock(blocks[n], text, Flatten(blocks[..n]), startletter);
      if endletter.Some? {
        assert blocks == blocks[..n + 1] + blocks[n + 1..];
        FlattenAppend(blocks[..n + 1], blocks[n + 1..]);
        FirstTwoPrefix(Flatten(blocks[..n + 1]), Flatten(blocks[n + 1..]), text);
        break;
      }
      n := n + 1;
    }
    if n == |blocks| {
      assert blocks[..n] == blocks;
    }
  }

  /** The inner loop over one block, after the candidates `done`. */
  method ScanBlock(item: seq<char>, text: string, ghost done: seq<char>, s0: Option<char>)
    returns (startletter: Option<char>, endletter: Option<char>)
    requires |Absent(done, text)| <= 1 && (s0, None) == FirstTwo(Absent(done, text))
    ensures endletter.None? ==> |Absent(done + item, text)| <= 1
    ensures endletter.Some? ==> |Absent(done + item, text)| >= 2
    ensures (startletter, endletter) == FirstTwo(Absent(done + item, text))
  {
    startletter, endletter := s0, None;
    var i := 0;
    assert done + item[..0] == done;
    ghost var absent := Absent(done, text);
    while i < |item|
      invariant 0 <= i <= |item|
      invariant absent == Absent(done + item[..i], text)
      invariant |absent| <= 1 && (startletter, endletter) == FirstTwo(absent)
      decreases |item| - i
    {
      var g := item[i];
      ghost var prev := absent;
      if g !in text {
        absent := absent + [g];
        AbsentStep(done, item, i, text, prev, absent);
        FirstTwoSnoc(prev, g);
        if startletter.None? {
          startletter := Some(g);
          i := i + 1;
          continue;
        }
        if endletter.None? {
          endletter := Some(g);
          AbsentRest(done, item, i + 1, text);
          return;
        }
      }
      AbsentStep(done, item, i, text, prev, absent);
      i := i + 1;
    }
    assert item[..i] == item;
  }

  /** A third absent candidate is never looked at. */
  lemma FirstTwoSnoc(a: seq<char>, g: char)
    requires |a| <= 1
    ensures |a + [g]| == |a| + 1
    ensures FirstTwo(a + [g]) == if |a| == 0 then (Some(g), None) else (Some(a[0]), Some(g))
  {
  }

  /** One candidate more: it joins the absent ones when the text lacks
      it. */
  lemma AbsentStep(done: seq<char>, item: seq<char>, i: nat, text: string, prev: seq<char>, next: seq<char>)
    requires i < |item| && prev == Absent(done + item[..i], text)
    requires next == if item[i] in text then prev else prev + [item[i]]
    ensures next == Absent(done + item[..i + 1], text)
  {
    assert done + item[..i + 1] == (done + item[..i]) + [item[i]];
    AbsentAppend(done + item[..i], [item[i]], text);
  }

  lemma AbsentRest(done: seq<char>, item: seq<char>, i: nat, text: string)
    requires i <= |item| && |Absent(done + item[..i], text)| >= 2
    ensures |Absent(done + item, text)| >= 2
    ensures FirstTwo(Absent(done + item, text)) == FirstTwo(Absent(done + item[..i], text))
  {
    assert done + item == (done + item[..i]) + item[i..];
    FirstTwoPrefix(done + item[..i], item[i..], text);
  }

  lemma {:induction false} FlattenAppend(a: seq<seq<char>>, b: seq<seq<char>>)
    ensures Flatten(a + b) == Flatten(a) + Flatten(b)
    decreases |b|
  {
    if b == [] {
      assert a + b == a;
    } else {
      var b0, last := b[..|b| - 1], b[|b| - 1];
      assert (a + b)[..|a + b| - 1] == a + b0;
      assert (a + b)[|a + b| - 1] == last;
      FlattenAppend(a, b0);
      calc {
        Flatten(a + b);
        Flatten(a + b0) + last;
        (Flatten(a) + Flatten(b0)) + last;
        Flatten(a) + (Flatten(b0) + last);
        Flatten(a) + Flatten(b);
      }
    }
  }

  // ---------------------------------------------------------------------
  // Carrying the records back: the lookup dict and `pe2`

  /** `s[1:-1]`. */
  function PyInner(s: string): string
  {
    if |s| >= 2 then s[1..|s| - 1] else []
  }

  /** `origtext`: the record's text with its two placeholders spelled out
      as the delimiters, `symb1 + item["text"][1:-1] + symb2`. */
  function OrigText(symb1: string, symb2: string, r: Record): string
  {
    symb1 + PyInner(r.text) + symb2
  }

  /** `[x for x in xs if x >= awv]`. */
  function AtOrAfter(xs: seq<nat>, awv: int): seq<nat>
  {
    if xs == [] then []
    else (if xs[0] >= awv then [xs[0]] else []) + AtOrAfter(xs[1..], awv)
  }

  /** Over an increasing list, the filter is empty exactly when no entry
      reaches `awv`, and otherwise starts with the least entry that does. */
  lemma {:induction false} AtOrAfterFirst(xs: seq<nat>, awv: int)
    requires StrictlyIncreasing(xs)
    ensures AtOrAfter(xs, awv) == [] <==> forall k :: 0 <= k < |xs| ==> xs[k] < awv
    ensures AtOrAfter(xs, awv) != [] ==>
      && AtOrAfter(xs, awv)[0] in xs && AtOrAfter(xs, awv)[0] >= awv
      && forall k :: 0 <= k < |xs| && xs[k] >= awv ==> AtOrAfter(xs, awv)[0] <= xs[k]
  {
    if xs != [] {
      AtOrAfterFirst(xs[1..], awv);
      if xs[0] < awv {
        forall k | 0 < k < |xs| ensures xs[k] == xs[1..][k - 1] {
        }
      }
    }
  }

  /** `lookupdict[key]` for one record as the source computes it: where
      `origtext` first occurs in the original text at or after `key[0]`,
      spread over `len(origtext) + 1` positions; the IndexError of `[...][0]`
      when it does not occur there. */
  function Relocation(text: string, symb1: string, symb2: string, r: Record): (res: Result<seq<int>>)
    requires |symb1| > 0 && |r.key| > 0
    ensures res.Ok? ==> |res.value| == |OrigText(symb1, symb2, r)| + 1 && IndexTuple(res.value)
  {
    var origtext := OrigText(symb1, symb2, r);
    var later := AtOrAfter(Occurrences(text, origtext, 0), r.key[0]);
    if later == [] then Err(IndexError)
    else Ok(Range(later[0], later[0] + |origtext| + 1))
  }

  /** Filtering index_all's list finds the first occurrence at or after
      `awv`. */
  lemma AtOrAfterFinds(text: string, origtext: string, awv: int)
    requires |origtext| > 0
    ensures var later := AtOrAfter(Occurrences(text, origtext, 0), awv);
      var hit := FindFrom(text, origtext, if awv < 0 then 0 else awv);
      (later == [] <==> hit.None?) && (later != [] ==> later[0] == hit.value)
  {
    var occ := Occurrences(text, origtext, 0);
    var hit := FindFrom(text, origtext, if awv < 0 then 0 else awv);
    FindFromSpec(text, origtext, if awv < 0 then 0 else awv);
    OccurrencesExact(text, origtext, 0);
    AtOrAfterFirst(occ, awv);
    if hit.Some? {
      assert hit.value in occ;
    }
  }

  /** The search `index_all` and the filter amount to: the first
      occurrence of `n` in `l` at or after `from`, spread over `|n| + 1`
      positions, or the IndexError. */
  function FirstAtOrAfter(l: string, n: string, from: int): (res: Result<seq<int>>)
    requires |n| > 0
    ensures res.Ok? <==> exists p :: from <= p && OccursAt(l, n, p)
  {
    FindFromSpec(l, n, if from < 0 then 0 else from);
    match FindFrom(l, n, if from < 0 then 0 else from)
    case None => Err(IndexError)
    case Some(i) => Ok(Range(i, i + |n| + 1))
  }

  /** The relocation is the first occurrence of `origtext` at or after
      `key[0]`. */
  lemma RelocationFound(text: string, symb1: string, symb2: string, r: Record)
    requires |symb1| > 0 && |r.key| > 0
    ensures Relocation(text, symb1, symb2, r) == FirstAtOrAfter(text, OrigText(symb1, symb2, r), r.key[0])
  {
    AtOrAfterFinds(text, OrigText(symb1, symb2, r), r.key[0]);
  }

  /** The relocation finds the first occurrence of `origtext` at or after
      `key[0]`, and the slice it reports is that occurrence. */
  lemma RelocationFinds(text: string, symb1: string, symb2: string, r: Record)
    requires |symb1| > 0 && |r.key| > 0
    ensures var origtext := OrigText(symb1, symb2, r);
      Relocation(text, symb1, symb2, r)
        == match FindFrom(text, origtext, if r.key[0] < 0 then 0 else r.key[0])
           case None => Err(IndexError)
           case Some(i) => Ok(Range(i, i + |origtext| + 1))
    ensures Relocation(text, symb1, symb2, r).Ok? ==>
      var ni := Relocation(text, symb1, symb2, r).value;
      PySlice(text, ni[0], ni[|ni| - 1]) == OrigText(symb1, symb2, r)
  {
    RelocationFound(text, symb1, symb2, r);
    FindFromSpec(text, OrigText(symb1, symb2, r), if r.key[0] < 0 then 0 else r.key[0]);
  }

  /** A `lookupdict` value: non-empty, starting and ending at a position. */
  predicate IndexTuple(ni: seq<int>)
  {
    |ni| > 0 && ni[0] >= 0 && ni[|ni| - 1] >= 0
  }

  predicate IndexTuples(m: map<seq<int>, seq<int>>)
  {
    forall k :: k in m ==> IndexTuple(m[k])
  }

  function KeySet(rs: seq<Record>): set<seq<int>>
  {
    set r | r in rs :: r.key
  }

  lemma KeySetSnoc(rs: seq<Record>)
    requires rs != []
    ensures KeySet(rs) == KeySet(rs[..|rs| - 1]) + {rs[|rs| - 1].key}
  {
    assert rs == rs[..|rs| - 1] + [rs[|rs| - 1]];
  }

  /** Every parent and child a record names is the key of a record. */
  predicate KeysClosed(rs: seq<Record>)
  {
    && (forall r, k :: r in rs && k in r.parents ==> k in KeySet(rs))
    && (forall r, k :: r in rs && k in r.children ==> k in KeySet(rs))
  }

  /** The `lookupdict` loop as written: one relocation per record, in
      order, the first IndexError ending it. */
  function LookupAsWritten(text: string, symb1: string, symb2: string, rs: seq<Record>)
    : (res: Result<map<seq<int>, seq<int>>>)
    requires |symb1| > 0
    requires forall r :: r in rs ==> |r.key| > 0
    ensures res.Ok? ==> res.value.Keys == KeySet(rs) && IndexTuples(res.value)
  {
    if rs == [] then Ok(map[])
    else
      var last := rs[|rs| - 1];
      KeySetSnoc(rs);
      match LookupAsWritten(text, symb1, symb2, rs[..|rs| - 1])
      case Err(e) => Err(e)
      case Ok(m) =>
        match Relocation(text, symb1, symb2, last)
        case Err(e) => Err(e)
        case Ok(ni) => Ok(m[last.key := ni])
  }

  /** The lookup dict covers what `pe2` looks up. */
  predicate Covers(lookup: map<seq<int>, seq<int>>, rs: seq<Record>)
  {
    && IndexTuples(lookup)
    && (forall r :: r in rs ==> r.key in lookup)
    && (forall r, k :: r in rs && k in r.parents ==> k in lookup)
    && (forall r, k :: r in rs && k in r.children ==> k in lookup)
  }

  /** `[lookupdict[x] for x in ks]`. */
  function Lookups(lookup: map<seq<int>, seq<int>>, ks: seq<seq<int>>): seq<seq<int>>
    requires forall k :: k in ks ==> k in lookup
  {
    seq(|ks|, i requires 0 <= i < |ks| => lookup[ks[i]])
  }

  lemma LookupsMembers(lookup: map<seq<int>, seq<int>>, ks: seq<seq<int>>)
    requires forall k :: k in ks ==> k in lookup
    ensures forall x :: x in Lookups(lookup, ks) <==> exists k :: k in ks && x == lookup[k]
  {
    var r := Lookups(lookup, ks);
    forall x | x in r ensures exists k :: k in ks && x == lookup[k] {
      var i :| 0 <= i < |r| && r[i] == x;
      assert ks[i] in ks;
    }
    forall k | k in ks ensures lookup[k] in r {
      var i :| 0 <= i < |ks| && ks[i] == k;
      assert r[i] == lookup[k];
    }
  }

  /** The `pe2` record of `r`: where the lookup dict puts it, with its
      parents and children looked up the same way. */
  function Relocated(text: string, lookup: map<seq<int>, seq<int>>, r: Record): Record
    requires r.key in lookup && IndexTuple(lookup[r.key])
    requires forall k :: k in r.parents ==> k in lookup
    requires forall k :: k in r.children ==> k in lookup
  {
    var ni := lookup[r.key];
    Record(|ni|, ni[0], ni[|ni| - 1], PySlice(text, ni[0], ni[|ni| - 1]), ni,
           Lookups(lookup, r.parents), Lookups(lookup, r.children))
  }

  function RelocatedAll(text: string, lookup: map<seq<int>, seq<int>>, rs: seq<Record>): (out: seq<Record>)
    requires Covers(lookup, rs)
    ensures |out| == |rs|
  {
    seq(|rs|, i requires 0 <= i < |rs| => Relocated(text, lookup, rs[i]))
  }

  lemma RelocatedAllSnoc(text: string, lookup: map<seq<int>, seq<int>>, rs: seq<Record>, j: nat)
    requires Covers(lookup, rs) && j < |rs|
    ensures Covers(lookup, rs[..j]) && Covers(lookup, rs[..j + 1])
    ensures RelocatedAll(text, lookup, rs[..j + 1]) == RelocatedAll(text, lookup, rs[..j]) + [Relocated(text, lookup, rs[j])]
  {
  }

  lemma ToDictSnoc(rs: seq<Record>, r: Record)
    ensures ToDict(rs + [r]) == ToDict(rs)[r.key := r]
  {
    assert (rs + [r])[..|rs|] == rs;
  }

  /** A span of the working text from an open placeholder to a later close
      placeholder. */
  predicate PlaceholderSpan(w: string, c1: char, c2: char, r: Record)
  {
    r.start < r.end < |w| && w[r.start] == c1 && w[r.end] == c2 && r.key == Range(r.start, r.end + 1)
  }

  /** The parents of every record are exactly the keys of the records
      enclosing it, and its children the keys of the records it encloses. */
  ghost predicate HierarchyExact(rs: seq<Record>)
  {
    && (forall i, k :: 0 <= i < |rs| ==>
          (k in rs[i].parents <==> exists j :: 0 <= j < |rs| && j != i && Encloses(rs[j], rs[i]) && k == rs[j].key))
    && (forall i, k :: 0 <= i < |rs| ==>
          (k in rs[i].children <==> exists j :: 0 <= j < |rs| && j != i && Encloses(rs[i], rs[j]) && k == rs[j].key))
  }

  /** What the records of the working text promise the relocation. */
  lemma ParsedRecords(c1: char, c2: char, w: string)
    requires ParseElementsSpec(c1, c2, w).Ok?
    ensures var rs := ParseElementsSpec(c1, c2, w).value;
      && DistinctKeys(rs) && KeysClosed(rs) && HierarchyExact(rs)
      && (forall r :: r in rs ==> PlaceholderSpan(w, c1, c2, r))
  {
    ElementsSound(c1, c2, w);
    MatchedPairs(w, c1, c2);
    BuiltHierarchy(w, GreedyMatch(w, c1, c2).value);
    HierarchyKeysClosed(ParseElementsSpec(c1, c2, w).value);
  }

  lemma BuiltHierarchy(w: string, ps: seq<Pair>)
    requires SpansText(w, ps)
    ensures HierarchyExact(BuildRecords(w, ps))
  {
    var rs := BuildRecords(w, ps);
    forall i | 0 <= i < |rs|
      ensures forall k :: k in rs[i].parents <==> exists j :: 0 <= j < |rs| && j != i && Encloses(rs[j], rs[i]) && k == rs[j].key
      ensures forall k :: k in rs[i].children <==> exists j :: 0 <= j < |rs| && j != i && Encloses(rs[i], rs[j]) && k == rs[j].key
    {
      ParentsExact(w, ps, i);
      ChildrenExact(w, ps, i);
    }
  }

  lemma HierarchyKeysClosed(rs: seq<Record>)
    requires HierarchyExact(rs)
    ensures KeysClosed(rs)
  {
    forall r, k | r in rs && (k in r.parents || k in r.children) ensures k in KeySet(rs) {
      var i :| 0 <= i < |rs| && rs[i] == r;
      if k in r.parents {
        var j :| 0 <= j < |rs| && j != i && Encloses(rs[j], rs[i]) && k == rs[j].key;
        assert rs[j] in rs;
      } else {
        var j :| 0 <= j < |rs| && j != i && Encloses(rs[i], rs[j]) && k == rs[j].key;
        assert rs[j] in rs;
      }
    }
  }

  /** `parse_elements_multi_letters` as written: the records found in the
      working text, relocated by searching the original text for their
      `origtext`. */
  function MultiLettersAsWritten(blocks: seq<seq<char>>, symb1: string, symb2: string, text: string)
    : Result<map<seq<int>, Record>>
    requires |symb1| > 0 && |symb2| > 0
  {
    var (s, e) := Placeholders(blocks, text);
    if s.None? || e.None? then Ok(map[])
    else
      var w := Working(text, symb1, symb2, s.value, e.value);
      match ParseElementsSpec(s.value, e.value, w)
      case Err(_) => Ok(map[])
      case Ok(rs) =>
        ParsedRecords(s.value, e.value, w);
        match LookupAsWritten(text, symb1, symb2, rs)
        case Err(err) => Err(err)
        case Ok(lookup) => Ok(ToDict(RelocatedAll(text, lookup, rs)))
  }

  /** As written, a missing placeholder and a failure of `parse_elements`
      both give the empty dict; the one error that escapes is the
      IndexError of the `lookupdict` loop. */
  lemma AsWrittenOutcomes(blocks: seq<seq<char>>, symb1: string, symb2: string, text: string)
    requires |symb1| > 0 && |symb2| > 0
    ensures var (s, e) := Placeholders(blocks, text);
      var res := MultiLettersAsWritten(blocks, symb1, symb2, text);
      && (s.None? || e.None? ==> res == Ok(map[]))
      && (s.Some? && e.Some? && ParseElementsSpec(s.value, e.value, Working(text, symb1, symb2, s.value, e.value)).Err?
          ==> res == Ok(map[]))
      && (res.Err? ==>
            && res.error == IndexError && s.Some? && e.Some?
            && var pe := ParseElementsSpec(s.value, e.value, Working(text, symb1, symb2, s.value, e.value));
            && pe.Ok? && (forall r :: r in pe.value ==> |r.key| > 0)
            && LookupAsWritten(text, symb1, symb2, pe.value).Err?)
  {
    var (s, e) := Placeholders(blocks, text);
    if s.Some? && e.Some? {
      var w := Working(text, symb1, symb2, s.value, e.value);
      if ParseElementsSpec(s.value, e.value, w).Ok? {
        ParsedRecords(s.value, e.value, w);
      }
    }
  }

  /** `parse_elements_multi_letters` as written: the placeholder search,
      the two replacements, `parse_elements` on the working text, then the
      `lookupdict` loop and the `pe2` loop. */
  method ParseElementsMultiLetters(blocks: seq<seq<char>>, symb1: string, symb2: string, text: string)
    returns (pe2: Result<map<seq<int>, Record>>)
    requires |symb1| > 0 && |symb2| > 0
    ensures pe2 == MultiLettersAsWritten(blocks, symb1, symb2, text)
  {
    var startletter, endletter := PickPlaceholders(blocks, text);
    if startletter.None? || endletter.None? {
      return Ok(map[]);
    }
    var text2 := Replace(text, symb1, startletter.value);
    text2 := Replace(text2, symb2, endletter.value);
    var pe := ParseElements(startletter.value, endletter.value, text2);
    if pe.Err? {
      return Ok(map[]);
    }
    ParsedRecords(startletter.value, endletter.value, text2);
    var lookupdict := FillLookup(text, symb1, symb2, pe.value);
    if lookupdict.Err? {
      return Err(lookupdict.error);
    }
    var out := FillPe2(text, lookupdict.value, pe.value);
    pe2 := Ok(out);
  }

  /** The `lookupdict` loop. `sorted` leaves index_all's list as it is,
      since that list is already increasing. */
  method FillLookup(text: string, symb1: string, symb2: string, rs: seq<Record>)
    returns (res: Result<map<seq<int>, seq<int>>>)
    requires |symb1| > 0
    requires forall r :: r in rs ==> |r.key| > 0
    ensures res == LookupAsWritten(text, symb1, symb2, rs)
  {
    var lookupdict: map<seq<int>, seq<int>> := map[];
    var i := 0;
    while i < |rs|
      invariant 0 <= i <= |rs|
      invariant LookupAsWritten(text, symb1, symb2, rs[..i]) == Ok(lookupdict)
      decreases |rs| - i
    {
      var item := rs[i];
      var newindex := LookupEntry(text, symb1, symb2, item);
      LookupSnoc(text, symb1, symb2, rs, i);
      if newindex.Err? {
        LookupErrPrefix(text, symb1, symb2, rs, i + 1);
        return Err(IndexError);
      }
      lookupdict := lookupdict[item.key := newindex.value];
      i := i + 1;
    }
    assert rs[..i] == rs;
    res := Ok(lookupdict);
  }

  /** The body of the `lookupdict` loop for one record. */
  method LookupEntry(text: string, symb1: string, symb2: string, item: Record)
    returns (res: Result<seq<int>>)
    requires |symb1| > 0 && |item.key| > 0
    ensures res == Relocation(text, symb1, symb2, item)
  {
    var origtext := symb1 + PyInner(item.text) + symb2;
    var indi := IndexAll.IndexAll(text, origtext);
    var awv := item.key[0];
    var later := AtOrAfter(indi, awv);
    if later == [] {
      return Err(IndexError);
    }
    res := Ok(Range(later[0], later[0] + |origtext| + 1));
  }

  lemma LookupSnoc(text: string, symb1: string, symb2: string, rs: seq<Record>, i: nat)
    requires |symb1| > 0
    requires forall r :: r in rs ==> |r.key| > 0
    requires i < |rs|
    ensures LookupAsWritten(text, symb1, symb2, rs[..i + 1])
         == match LookupAsWritten(text, symb1, symb2, rs[..i])
            case Err(e) => Err(e)
            case Ok(m) =>
              match Relocation(text, symb1, symb2, rs[i])
              case Err(e) => Err(e)
              case Ok(ni) => Ok(m[rs[i].key := ni])
  {
    assert rs[..i + 1][..i] == rs[..i];
  }

  /** Once the loop has raised, the whole loop has. */
  lemma {:induction false} LookupErrPrefix(text: string, symb1: string, symb2: string, rs: seq<Record>, n: nat)
    requires |symb1| > 0
    requires forall r :: r in rs ==> |r.key| > 0
    requires n <= |rs| && LookupAsWritten(text, symb1, symb2, rs[..n]).Err?
    ensures LookupAsWritten(text, symb1, symb2, rs) == Err(IndexError)
    decreases |rs|
  {
    if n == |rs| {
      assert rs[..n] == rs;
    } else {
      var init := rs[..|rs| - 1];
      assert init[..n] == rs[..n];
      LookupErrPrefix(text, symb1, symb2, init, n);
    }
  }

  /** When no relocation raises, the `lookupdict` loop maps each record's
      key to its relocated span (keys are distinct, so no entry is
      overwritten). */
  lemma {:induction false} LookupValues(text: string, symb1: string, symb2: string, rs: seq<Record>)
    requires |symb1| > 0 && (forall r :: r in rs ==> |r.key| > 0) && DistinctKeys(rs)
    requires forall r :: r in rs ==> Relocation(text, symb1, symb2, r).Ok?
    ensures LookupAsWritten(text, symb1, symb2, rs).Ok?
    ensures forall r :: r in rs ==>
      && r.key in LookupAsWritten(text, symb1, symb2, rs).value
      && LookupAsWritten(text, symb1, symb2, rs).value[r.key] == Relocation(text, symb1, symb2, r).value
    decreases |rs|
  {
    if rs != [] {
      var init, last := rs[..|rs| - 1], rs[|rs| - 1];
      assert forall r :: r in init ==> r in rs;
      assert DistinctKeys(init);
      LookupValues(text, symb1, symb2, init);
      var m := LookupAsWritten(text, symb1, symb2, init).value;
      var m' := m[last.key := Relocation(text, symb1, symb2, last).value];
      assert LookupAsWritten(text, symb1, symb2, rs) == Ok(m');
      forall r | r in rs
        ensures r.key in m' && m'[r.key] == Relocation(text, symb1, symb2, r).value
      {
        var k :| 0 <= k < |rs| && rs[k] == r;
        if k < |rs| - 1 {
          assert r in init && r.key != last.key;
          UpdateElsewhere(m, last.key, Relocation(text, symb1, symb2, last).value, r.key);
        }
      }
    }
  }

  lemma UpdateElsewhere(m: map<seq<int>, seq<int>>, key: seq<int>, v: seq<int>, other: seq<int>)
    requires other in m && other != key
    ensures other in m[key := v] && m[key := v][other] == m[other]
  {
  }

  /** When every relocation succeeds, the dict the repository returns is
      keyed by the relocated spans, one key per distinct span: records that
      relocate to the same span collapse into one entry. */
  lemma AsWrittenKeys(blocks: seq<seq<char>>, symb1: string, symb2: string, text: string, rs: seq<Record>)
    requires |symb1| > 0 && |symb2| > 0
    requires var (s, e) := Placeholders(blocks, text);
      && s.Some? && e.Some?
      && ParseElementsSpec(s.value, e.value, Working(text, symb1, symb2, s.value, e.value)) == Ok(rs)
    requires forall r :: r in rs ==> |r.key| > 0 && Relocation(text, symb1, symb2, r).Ok?
    ensures MultiLettersAsWritten(blocks, symb1, symb2, text).Ok?
    ensures MultiLettersAsWritten(blocks, symb1, symb2, text).value.Keys
         == set r | r in rs :: Relocation(text, symb1, symb2, r).value
  {
    var (s, e) := Placeholders(blocks, text);
    ParsedRecords(s.value, e.value, Working(text, symb1, symb2, s.value, e.value));
    LookupValues(text, symb1, symb2, rs);
    var lookup := LookupAsWritten(text, symb1, symb2, rs).value;
    AsWrittenOk(blocks, symb1, symb2, text, rs);
    RelocatedKeys(text, lookup, rs);
    LookupSpans(text, symb1, symb2, lookup, rs);
  }

  /** The path on which nothing raises. */
  lemma AsWrittenOk(blocks: seq<seq<char>>, symb1: string, symb2: string, text: string, rs: seq<Record>)
    requires |symb1| > 0 && |symb2| > 0
    requires var (s, e) := Placeholders(blocks, text);
      && s.Some? && e.Some?
      && ParseElementsSpec(s.value, e.value, Working(text, symb1, symb2, s.value, e.value)) == Ok(rs)
    requires forall r :: r in rs ==> |r.key| > 0
    requires LookupAsWritten(text, symb1, symb2, rs).Ok?
    ensures Covers(LookupAsWritten(text, symb1, symb2, rs).value, rs)
    ensures MultiLettersAsWritten(blocks, symb1, symb2, text)
         == Ok(ToDict(RelocatedAll(text, LookupAsWritten(text, symb1, symb2, rs).value, rs)))
  {
    var (s, e) := Placeholders(blocks, text);
    var w := Working(text, symb1, symb2, s.value, e.value);
    ParsedRecords(s.value, e.value, w);
    LookupCovers(text, symb1, symb2, rs);
  }

  /** A `lookupdict` that the loop completes holds every key the records
      mention, as long as those keys are the records' own. */
  lemma LookupCovers(text: string, symb1: string, symb2: string, rs: seq<Record>)
    requires |symb1| > 0 && (forall r :: r in rs ==> |r.key| > 0) && KeysClosed(rs)
    requires LookupAsWritten(text, symb1, symb2, rs).Ok?
    ensures Covers(LookupAsWritten(text, symb1, symb2, rs).value, rs)
  {
  }

  /** The `pe2` dict is keyed by the looked-up spans of the records. */
  lemma RelocatedKeys(text: string, lookup: map<seq<int>, seq<int>>, rs: seq<Record>)
    requires Covers(lookup, rs)
    ensures ToDict(RelocatedAll(text, lookup, rs)).Keys == set r | r in rs :: lookup[r.key]
  {
    var out := RelocatedAll(text, lookup, rs);
    forall x | x in ToDict(out).Keys ensures x in set r | r in rs :: lookup[r.key] {
      var k :| 0 <= k < |out| && out[k].key == x;
      assert rs[k] in rs;
    }
    forall x | x in set r | r in rs :: lookup[r.key] ensures x in ToDict(out).Keys {
      var r :| r in rs && lookup[r.key] == x;
      var k :| 0 <= k < |rs| && rs[k] == r;
      assert out[k] in out;
    }
  }

  lemma LookupSpans(text: string, symb1: string, symb2: string, lookup: map<seq<int>, seq<int>>, rs: seq<Record>)
    requires |symb1| > 0
    requires forall r :: r in rs ==> |r.key| > 0 && r.key in lookup
    requires forall k :: 0 <= k < |rs| ==> Relocation(text, symb1, symb2, rs[k]).Ok? && lookup[rs[k].key] == Relocation(text, symb1, symb2, rs[k]).value
    ensures (set r | r in rs :: lookup[r.key]) == set r | r in rs :: Relocation(text, symb1, symb2, r).value
  {
    forall r | r in rs ensures lookup[r.key] == Relocation(text, symb1, symb2, r).value {
      var k :| 0 <= k < |rs| && rs[k] == r;
    }
  }

  /** The `pe2` loop. */
  method FillPe2(text: string, lookupdict: map<seq<int>, seq<int>>, rs: seq<Record>)
    returns (pe2: map<seq<int>, Record>)
    requires Covers(lookupdict, rs)
    ensures pe2 == ToDict(RelocatedAll(text, lookupdict, rs))
  {
    pe2 := map[];
    var j := 0;
    while j < |rs|
      invariant 0 <= j <= |rs| && Covers(lookupdict, rs[..j])
      invariant pe2 == ToDict(RelocatedAll(text, lookupdict, rs[..j]))
      decreases |rs| - j
    {
      var item := rs[j];
      var newindex := lookupdict[item.key];
      ghost var prev := pe2;
      pe2 := pe2[newindex := Record(
        |newindex|, newindex[0], newindex[|newindex| - 1],
        PySlice(text, newindex[0], newindex[|newindex| - 1]), newindex,
        Lookups(lookupdict, item.parents), Lookups(lookupdict, item.children))];
      FillStep(text, lookupdict, rs, j, prev, pe2[newindex], pe2);
      j := j + 1;
    }
    assert rs[..j] == rs;
  }

  /** One turn of the `pe2` loop: the record carried back is stored under
      its new key. */
  lemma FillStep(text: string, lookup: map<seq<int>, seq<int>>, rs: seq<Record>, j: nat,
                 prev: map<seq<int>, Record>, rec: Record, next: map<seq<int>, Record>)
    requires Covers(lookup, rs) && j < |rs|
    requires Covers(lookup, rs[..j]) && prev == ToDict(RelocatedAll(text, lookup, rs[..j]))
    requires rs[j].key in lookup && rec == Relocated(text, lookup, rs[j]) && next == prev[lookup[rs[j].key] := rec]
    ensures Covers(lookup, rs[..j + 1]) && next == ToDict(RelocatedAll(text, lookup, rs[..j + 1]))
  {
    RelocatedAllSnoc(text, lookup, rs, j);
    ToDictSnoc(RelocatedAll(text, lookup, rs[..j]), rec);
  }

  // ---------------------------------------------------------------------
  // The relocation corrected: positions carried back through Restore

  lemma OriginMonotone(w: string, a: nat, b: nat, c1: char, symb1: string, c2: char, symb2: string)
    requires a <= b <= |w|
    ensures Origin(w, a, c1, symb1, c2, symb2) <= Origin(w, b, c1, symb1, c2, symb2)
  {
    assert w[..b] == w[..a] + w[a..b];
    RestoreAppend(w[..a], w[a..b], c1, symb1, c2, symb2);
  }

  /** With non-empty delimiters, Origin keeps the order of positions both
      ways. */
  lemma OriginOrder(w: string, a: nat, b: nat, c1: char, symb1: string, c2: char, symb2: string)
    requires |symb1| > 0 && |symb2| > 0 && a <= |w| && b <= |w|
    ensures a <= b <==> Origin(w, a, c1, symb1, c2, symb2) <= Origin(w, b, c1, symb1, c2, symb2)
    ensures a == b <==> Origin(w, a, c1, symb1, c2, symb2) == Origin(w, b, c1, symb1, c2, symb2)
  {
    if a < b {
      OriginIncreasing(w, a, b, c1, symb1, c2, symb2);
    } else if b < a {
      OriginIncreasing(w, b, a, c1, symb1, c2, symb2);
    }
  }

  /** The corrected `lookupdict[key]`: the range the source builds, from
      the origin of the open placeholder to the origin of the position after
      the close placeholder. */
  function FixedIndex(w: string, r: Record, c1: char, symb1: string, c2: char, symb2: string): (ni: seq<int>)
    requires r.start <= r.end < |w|
    ensures IndexTuple(ni)
  {
    OriginMonotone(w, r.start, r.end + 1, c1, symb1, c2, symb2);
    Range(Origin(w, r.start, c1, symb1, c2, symb2), Origin(w, r.end + 1, c1, symb1, c2, symb2) + 1)
  }

  function LookupFixed(w: string, rs: seq<Record>, c1: char, symb1: string, c2: char, symb2: string)
    : (m: map<seq<int>, seq<int>>)
    requires forall r :: r in rs ==> r.start <= r.end < |w|
    ensures m.Keys == KeySet(rs) && IndexTuples(m)
  {
    if rs == [] then map[]
    else
      KeySetSnoc(rs);
      LookupFixed(w, rs[..|rs| - 1], c1, symb1, c2, symb2)[rs[|rs| - 1].key := FixedIndex(w, rs[|rs| - 1], c1, symb1, c2, symb2)]
  }

  lemma {:induction false} LookupFixedAt(w: string, rs: seq<Record>, i: nat, c1: char, symb1: string, c2: char, symb2: string)
    requires forall r :: r in rs ==> r.start <= r.end < |w|
    requires DistinctKeys(rs) && i < |rs|
    ensures LookupFixed(w, rs, c1, symb1, c2, symb2)[rs[i].key] == FixedIndex(w, rs[i], c1, symb1, c2, symb2)
  {
    var last := |rs| - 1;
    if i < last {
      var init := rs[..last];
      assert init[i] == rs[i];
      LookupFixedAt(w, init, i, c1, symb1, c2, symb2);
      assert rs[i].key != rs[last].key;
    }
  }

  /** The records of the working text, carried back to the original. */
  function FixedRecords(text: string, w: string, rs: seq<Record>, c1: char, symb1: string, c2: char, symb2: string)
    : seq<Record>
    requires InText(w, rs)
    requires KeysClosed(rs)
  {
    RelocatedAll(text, LookupFixed(w, rs, c1, symb1, c2, symb2), rs)
  }

  /** The records `parse_elements` finds in the working text: none when a
      placeholder is missing or it raises. */
  function WorkingRecords(blocks: seq<seq<char>>, symb1: string, symb2: string, text: string): seq<Record>
    requires |symb1| > 0 && |symb2| > 0
  {
    var (s, e) := Placeholders(blocks, text);
    if s.None? || e.None? then []
    else
      match ParseElementsSpec(s.value, e.value, Working(text, symb1, symb2, s.value, e.value))
      case Err(_) => []
      case Ok(rs) => rs
  }

  /** The records of the corrected `parse_elements_multi_letters`, in the
      order `pe2` is filled. */
  function MultiLettersRecords(blocks: seq<seq<char>>, symb1: string, symb2: string, text: string): seq<Record>
    requires |symb1| > 0 && |symb2| > 0
  {
    var (s, e) := Placeholders(blocks, text);
    if s.None? || e.None? then []
    else
      var w := Working(text, symb1, symb2, s.value, e.value);
      match ParseElementsSpec(s.value, e.value, w)
      case Err(_) => []
      case Ok(rs) =>
        ParsedRecords(s.value, e.value, w);
        FixedRecords(text, w, rs, s.value, symb1, e.value, symb2)
  }

  /** `parse_elements_multi_letters` with the relocation corrected. It
      never raises. */
  function MultiLetters(blocks: seq<seq<char>>, symb1: string, symb2: string, text: string)
    : (res: Result<map<seq<int>, Record>>)
    requires |symb1| > 0 && |symb2| > 0
    ensures res.Ok?
  {
    Ok(ToDict(MultiLettersRecords(blocks, symb1, symb2, text)))
  }

  /** A record in the original text's coordinates, as the source shapes
      it: its key is `range(start, end + 1)` and its size the key's length,
      its text is the original between `start` and `end`, and that text
      runs from `symb1` to `symb2`. */
  predicate Delimited(text: string, symb1: string, symb2: string, r: Record)
  {
    && r.start + |symb1| + |symb2| <= r.end <= |text|
    && r.key == Range(r.start, r.end + 1) && r.size == |r.key|
    && r.text == text[r.start..r.end]
    && r.text[..|symb1|] == symb1 && r.text[|r.text| - |symb2|..] == symb2
  }

  /** When the working text stands for the original. */
  predicate Faithful(text: string, symb1: string, symb2: string, c1: char, c2: char)
  {
    c1 !in text && c2 !in text && c1 != c2 && c1 !in symb2
  }

  /** The original text holds `symb1` at `ns` and `symb2` ending at `ne`,
      apart. */
  predicate Framed(text: string, ns: nat, ne: nat, symb1: string, symb2: string)
  {
    && ns + |symb1| + |symb2| <= ne <= |text|
    && text[ns..ns + |symb1|] == symb1 && text[ne - |symb2|..ne] == symb2
  }

  /** The span of a record of the working text, carried back: it is at
      least as long as both delimiters, and begins with `symb1` and ends
      with `symb2`. */
  lemma OriginSpan(text: string, w: string, s: nat, e: nat, c1: char, symb1: string, c2: char, symb2: string)
    requires Restore(w, c1, symb1, c2, symb2) == text && c1 != c2
    requires s < e < |w| && w[s] == c1 && w[e] == c2
    ensures Framed(text, Origin(w, s, c1, symb1, c2, symb2), Origin(w, e + 1, c1, symb1, c2, symb2), symb1, symb2)
  {
    TokenRestored(text, w, s, c1, symb1, c2, symb2);
    TokenRestored(text, w, e, c1, symb1, c2, symb2);
    OriginMonotone(w, s + 1, e, c1, symb1, c2, symb2);
  }

  /** A record carried back by the corrected lookup dict starts and ends
      at the origins of its placeholders and is delimited in the original. */
  lemma RelocatedFixed(text: string, w: string, lookup: map<seq<int>, seq<int>>, r: Record,
                       c1: char, symb1: string, c2: char, symb2: string)
    requires |symb1| > 0 && |symb2| > 0 && c1 != c2
    requires Restore(w, c1, symb1, c2, symb2) == text
    requires r.start < r.end < |w| && w[r.start] == c1 && w[r.end] == c2
    requires r.key in lookup && lookup[r.key] == FixedIndex(w, r, c1, symb1, c2, symb2)
    requires forall k :: k in r.parents ==> k in lookup
    requires forall k :: k in r.children ==> k in lookup
    ensures var R := Relocated(text, lookup, r);
      && R.start == Origin(w, r.start, c1, symb1, c2, symb2)
      && R.end == Origin(w, r.end + 1, c1, symb1, c2, symb2)
      && Delimited(text, symb1, symb2, R)
  {
    var ns, ne := Origin(w, r.start, c1, symb1, c2, symb2), Origin(w, r.end + 1, c1, symb1, c2, symb2);
    OriginSpan(text, w, r.start, r.end, c1, symb1, c2, symb2);
    assert lookup[r.key] == Range(ns, ne + 1);
    CarriedDelimited(text, symb1, symb2, lookup, r, ns, ne);
  }

  /** A record whose lookup value is the range of a delimited span of the
      original is carried to that span. */
  lemma CarriedDelimited(text: string, symb1: string, symb2: string, lookup: map<seq<int>, seq<int>>, r: Record, ns: nat, ne: nat)
    requires Framed(text, ns, ne, symb1, symb2)
    requires r.key in lookup && lookup[r.key] == Range(ns, ne + 1)
    requires forall k :: k in r.parents ==> k in lookup
    requires forall k :: k in r.children ==> k in lookup
    ensures var R := Relocated(text, lookup, r);
      R.start == ns && R.end == ne && Delimited(text, symb1, symb2, R)
  {
    RelocatedSpan(text, lookup, r, ns, ne);
    DelimitedOf(text, symb1, symb2, Relocated(text, lookup, r), ns, ne);
  }

  /** A record whose lookup value is `range(ns, ne + 1)` is carried to the
      span `ns..ne`. */
  lemma RelocatedSpan(text: string, lookup: map<seq<int>, seq<int>>, r: Record, ns: nat, ne: nat)
    requires ns <= ne && r.key in lookup && lookup[r.key] == Range(ns, ne + 1)
    requires forall k :: k in r.parents ==> k in lookup
    requires forall k :: k in r.children ==> k in lookup
    ensures var R := Relocated(text, lookup, r);
      && R.start == ns && R.end == ne && R.key == Range(ns, ne + 1) && R.size == |R.key|
      && R.text == PySlice(text, ns, ne)
  {
  }

  lemma DelimitedOf(text: string, symb1: string, symb2: string, r: Record, ns: nat, ne: nat)
    requires ns + |symb1| + |symb2| <= ne <= |text|
    requires text[ns..ns + |symb1|] == symb1 && text[ne - |symb2|..ne] == symb2
    requires r.start == ns && r.end == ne && r.key == Range(ns, ne + 1) && r.size == |r.key|
    requires r.text == PySlice(text, ns, ne)
    ensures Delimited(text, symb1, symb2, r)
  {
    assert r.text[..|symb1|] == text[ns..ns + |symb1|];
    assert r.text[|r.text| - |symb2|..] == text[ne - |symb2|..ne];
  }

  /** Every record of the working text inside it. */
  predicate InText(w: string, rs: seq<Record>)
  {
    forall r :: r in rs ==> r.start <= r.end < |w|
  }

  /** What the corrected relocation needs of the records of the working
      text. */
  ghost predicate Relocatable(text: string, w: string, rs: seq<Record>, c1: char, symb1: string, c2: char, symb2: string)
  {
    && |symb1| > 0 && |symb2| > 0 && c1 != c2
    && Restore(w, c1, symb1, c2, symb2) == text
    && InText(w, rs) && DistinctKeys(rs) && KeysClosed(rs)
    && (forall r :: r in rs ==> PlaceholderSpan(w, c1, c2, r))
  }

  /** A carried-back record starts and ends at the origins of its
      placeholders and is delimited in the original. */
  lemma FixedRecordAt(text: string, w: string, rs: seq<Record>, i: nat, c1: char, symb1: string, c2: char, symb2: string)
    requires Relocatable(text, w, rs, c1, symb1, c2, symb2) && i < |rs|
    ensures var R := FixedRecords(text, w, rs, c1, symb1, c2, symb2)[i];
      && R.start == Origin(w, rs[i].start, c1, symb1, c2, symb2)
      && R.end == Origin(w, rs[i].end + 1, c1, symb1, c2, symb2)
      && Delimited(text, symb1, symb2, R)
  {
    LookupFixedAt(w, rs, i, c1, symb1, c2, symb2);
    assert rs[i] in rs;
    RelocatedFixed(text, w, LookupFixed(w, rs, c1, symb1, c2, symb2), rs[i], c1, symb1, c2, symb2);
  }

  /** A carried-back record's key, parents and children are looked up in
      the corrected lookup dict. */
  lemma FixedRecordLinks(text: string, w: string, rs: seq<Record>, i: nat, c1: char, symb1: string, c2: char, symb2: string)
    requires Relocatable(text, w, rs, c1, symb1, c2, symb2) && i < |rs|
    ensures var lookup, R := LookupFixed(w, rs, c1, symb1, c2, symb2), FixedRecords(text, w, rs, c1, symb1, c2, symb2)[i];
      && rs[i].key in lookup && R.key == lookup[rs[i].key]
      && (forall k :: k in rs[i].parents ==> k in lookup) && R.parents == Lookups(lookup, rs[i].parents)
      && (forall k :: k in rs[i].children ==> k in lookup) && R.children == Lookups(lookup, rs[i].children)
  {
    assert rs[i] in rs;
  }

  /** Records with different keys in the working text keep different keys
      once carried back. */
  lemma KeysKept(w: string, a: Record, b: Record, ra: Record, rb: Record, c1: char, symb1: string, c2: char, symb2: string)
    requires |symb1| > 0 && |symb2| > 0
    requires a.start <= a.end < |w| && b.start <= b.end < |w|
    requires a.key == Range(a.start, a.end + 1) && b.key == Range(b.start, b.end + 1) && a.key != b.key
    requires ra.start == Origin(w, a.start, c1, symb1, c2, symb2) && ra.end == Origin(w, a.end + 1, c1, symb1, c2, symb2)
    requires rb.start == Origin(w, b.start, c1, symb1, c2, symb2) && rb.end == Origin(w, b.end + 1, c1, symb1, c2, symb2)
    requires ra.start < ra.end && ra.key == Range(ra.start, ra.end + 1)
    requires rb.start < rb.end && rb.key == Range(rb.start, rb.end + 1)
    ensures ra.key != rb.key
  {
    OriginOrder(w, a.start, b.start, c1, symb1, c2, symb2);
    OriginOrder(w, a.end + 1, b.end + 1, c1, symb1, c2, symb2);
    if ra.start != rb.start {
      assert ra.key[0] != rb.key[0];
    } else {
      assert ra.end != rb.end;
      assert ra.key[|ra.key| - 1] != rb.key[|rb.key| - 1];
    }
  }

  /** Enclosure between two records is the same before and after they are
      carried back. */
  lemma EnclosesKept(w: string, a: Record, b: Record, ra: Record, rb: Record, c1: char, symb1: string, c2: char, symb2: string)
    requires |symb1| > 0 && |symb2| > 0
    requires a.start <= a.end < |w| && b.start <= b.end < |w|
    requires ra.start == Origin(w, a.start, c1, symb1, c2, symb2) && ra.end == Origin(w, a.end + 1, c1, symb1, c2, symb2)
    requires rb.start == Origin(w, b.start, c1, symb1, c2, symb2) && rb.end == Origin(w, b.end + 1, c1, symb1, c2, symb2)
    ensures Encloses(a, b) <==> Encloses(ra, rb)
  {
    OriginOrder(w, a.start, b.start, c1, symb1, c2, symb2);
    OriginOrder(w, b.end + 1, a.end + 1, c1, symb1, c2, symb2);
  }

  /** Each record of `out` is the record of `rs` at the same index,
      carried back: it starts and ends at the origins of its placeholders
      and its key is the range between. */
  ghost predicate CarriedBack(w: string, rs: seq<Record>, out: seq<Record>, c1: char, symb1: string, c2: char, symb2: string)
  {
    && |out| == |rs|
    && (forall r :: r in rs ==> r.start <= r.end < |w| && r.key == Range(r.start, r.end + 1))
    && (forall i :: 0 <= i < |rs| ==>
          && out[i].start == Origin(w, rs[i].start, c1, symb1, c2, symb2)
          && out[i].end == Origin(w, rs[i].end + 1, c1, symb1, c2, symb2)
          && out[i].start < out[i].end && out[i].key == Range(out[i].start, out[i].end + 1))
  }

  /** Each record of `out` takes its key, parents and children from
      `lookup`, applied to the record of `rs` at the same index. */
  ghost predicate LinkedBy(rs: seq<Record>, out: seq<Record>, lookup: map<seq<int>, seq<int>>)
  {
    && |out| == |rs|
    && (forall i :: 0 <= i < |rs| ==>
          && rs[i].key in lookup && out[i].key == lookup[rs[i].key]
          && (forall k :: k in rs[i].parents ==> k in lookup) && out[i].parents == Lookups(lookup, rs[i].parents)
          && (forall k :: k in rs[i].children ==> k in lookup) && out[i].children == Lookups(lookup, rs[i].children))
  }

  /** The corrected records are the records of the working text carried
      back, each delimited in the original. */
  lemma FixedPlaced(text: string, w: string, rs: seq<Record>, c1: char, symb1: string, c2: char, symb2: string)
    requires Relocatable(text, w, rs, c1, symb1, c2, symb2)
    ensures var out := FixedRecords(text, w, rs, c1, symb1, c2, symb2);
      && CarriedBack(w, rs, out, c1, symb1, c2, symb2)
      && forall R :: R in out ==> Delimited(text, symb1, symb2, R)
  {
    var out := FixedRecords(text, w, rs, c1, symb1, c2, symb2);
    forall i | 0 <= i < |rs|
      ensures out[i].start == Origin(w, rs[i].start, c1, symb1, c2, symb2)
      ensures out[i].end == Origin(w, rs[i].end + 1, c1, symb1, c2, symb2)
      ensures Delimited(text, symb1, symb2, out[i])
    {
      FixedRecordAt(text, w, rs, i, c1, symb1, c2, symb2);
    }
  }

  /** The corrected records take their keys and links from the corrected
      lookup dict. */
  lemma FixedLinked(text: string, w: string, rs: seq<Record>, c1: char, symb1: string, c2: char, symb2: string)
    requires Relocatable(text, w, rs, c1, symb1, c2, symb2)
    ensures LinkedBy(rs, FixedRecords(text, w, rs, c1, symb1, c2, symb2), LookupFixed(w, rs, c1, symb1, c2, symb2))
  {
    forall i | 0 <= i < |rs|
      ensures rs[i].key in LookupFixed(w, rs, c1, symb1, c2, symb2)
    {
      FixedRecordLinks(text, w, rs, i, c1, symb1, c2, symb2);
    }
  }

  /** Carrying records back keeps their keys apart. */
  lemma CarriedDistinct(w: string, rs: seq<Record>, out: seq<Record>, c1: char, symb1: string, c2: char, symb2: string)
    requires |symb1| > 0 && |symb2| > 0
    requires DistinctKeys(rs) && CarriedBack(w, rs, out, c1, symb1, c2, symb2)
    ensures DistinctKeys(out)
  {
    forall i, j | 0 <= i < j < |out| ensures out[i].key != out[j].key {
      CarriedAt(w, rs, out, i, c1, symb1, c2, symb2);
      CarriedAt(w, rs, out, j, c1, symb1, c2, symb2);
      KeysKept(w, rs[i], rs[j], out[i], out[j], c1, symb1, c2, symb2);
    }
  }

  /** The record of `out` at index `i` is the one of `rs` carried back. */
  lemma CarriedAt(w: string, rs: seq<Record>, out: seq<Record>, i: nat, c1: char, symb1: string, c2: char, symb2: string)
    requires CarriedBack(w, rs, out, c1, symb1, c2, symb2) && i < |rs|
    ensures i < |out| && rs[i].start <= rs[i].end < |w| && rs[i].key == Range(rs[i].start, rs[i].end + 1)
    ensures out[i].start == Origin(w, rs[i].start, c1, symb1, c2, symb2)
    ensures out[i].end == Origin(w, rs[i].end + 1, c1, symb1, c2, symb2)
    ensures out[i].start < out[i].end && out[i].key == Range(out[i].start, out[i].end + 1)
  {
    assert rs[i] in rs;
  }

  /** Enclosure between any two records of `rs` is enclosure between the
      records of `out` at the same indices. */
  ghost predicate OrderKept(rs: seq<Record>, out: seq<Record>)
  {
    && |out| == |rs|
    && forall i, j :: 0 <= i < |rs| && 0 <= j < |rs| ==> (Encloses(rs[i], rs[j]) <==> Encloses(out[i], out[j]))
  }

  lemma CarriedOrder(w: string, rs: seq<Record>, out: seq<Record>, c1: char, symb1: string, c2: char, symb2: string)
    requires |symb1| > 0 && |symb2| > 0
    requires CarriedBack(w, rs, out, c1, symb1, c2, symb2)
    ensures OrderKept(rs, out)
  {
    forall i, j | 0 <= i < |rs| && 0 <= j < |rs| ensures Encloses(rs[i], rs[j]) <==> Encloses(out[i], out[j]) {
      CarriedAt(w, rs, out, i, c1, symb1, c2, symb2);
      CarriedAt(w, rs, out, j, c1, symb1, c2, symb2);
      EnclosesKept(w, rs[i], rs[j], out[i], out[j], c1, symb1, c2, symb2);
    }
  }

  /** Records whose enclosure is kept and whose links are looked up keep
      the parents of each exactly the keys of the records enclosing it. */
  lemma CarriedParents(rs: seq<Record>, out: seq<Record>, lookup: map<seq<int>, seq<int>>, i: nat)
    requires i < |rs| && HierarchyExact(rs) && OrderKept(rs, out) && LinkedBy(rs, out, lookup)
    ensures forall k :: k in out[i].parents <==>
      exists j :: 0 <= j < |out| && j != i && Encloses(out[j], out[i]) && k == out[j].key
  {
    forall k ensures k in out[i].parents <==> exists j :: 0 <= j < |out| && j != i && Encloses(out[j], out[i]) && k == out[j].key {
      if k in out[i].parents {
        var j := ParentCarried(rs, out, lookup, i, k);
      }
      if exists j :: 0 <= j < |out| && j != i && Encloses(out[j], out[i]) && k == out[j].key {
        var j :| 0 <= j < |out| && j != i && Encloses(out[j], out[i]) && k == out[j].key;
        ParentKept(rs, out, lookup, i, j);
      }
    }
  }

  /** A carried-back parent key is the key of a carried-back record that
      encloses the record. */
  lemma ParentCarried(rs: seq<Record>, out: seq<Record>, lookup: map<seq<int>, seq<int>>, i: nat, k: seq<int>)
    returns (j: nat)
    requires i < |rs| && HierarchyExact(rs) && OrderKept(rs, out) && LinkedBy(rs, out, lookup)
    requires k in out[i].parents
    ensures j < |out| && j != i && Encloses(out[j], out[i]) && k == out[j].key
  {
    LookupsMembers(lookup, rs[i].parents);
    var x :| x in rs[i].parents && k == lookup[x];
    j :| 0 <= j < |rs| && j != i && Encloses(rs[j], rs[i]) && x == rs[j].key;
  }

  /** A carried-back record enclosing another is among its parents. */
  lemma ParentKept(rs: seq<Record>, out: seq<Record>, lookup: map<seq<int>, seq<int>>, i: nat, j: nat)
    requires i < |rs| && j < |rs| && j != i && HierarchyExact(rs) && OrderKept(rs, out) && LinkedBy(rs, out, lookup)
    requires Encloses(out[j], out[i])
    ensures out[j].key in out[i].parents
  {
    assert Encloses(rs[j], rs[i]);
    assert rs[j].key in rs[i].parents;
    LookupsMembers(lookup, rs[i].parents);
  }

  /** Records whose enclosure is kept and whose links are looked up keep
      the children of each exactly the keys of the records it encloses. */
  lemma CarriedChildren(rs: seq<Record>, out: seq<Record>, lookup: map<seq<int>, seq<int>>, i: nat)
    requires i < |rs| && HierarchyExact(rs) && OrderKept(rs, out) && LinkedBy(rs, out, lookup)
    ensures forall k :: k in out[i].children <==>
      exists j :: 0 <= j < |out| && j != i && Encloses(out[i], out[j]) && k == out[j].key
  {
    forall k ensures k in out[i].children <==> exists j :: 0 <= j < |out| && j != i && Encloses(out[i], out[j]) && k == out[j].key {
      if k in out[i].children {
        var j := ChildCarried(rs, out, lookup, i, k);
      }
      if exists j :: 0 <= j < |out| && j != i && Encloses(out[i], out[j]) && k == out[j].key {
        var j :| 0 <= j < |out| && j != i && Encloses(out[i], out[j]) && k == out[j].key;
        ChildKept(rs, out, lookup, i, j);
      }
    }
  }

  /** A carried-back child key is the key of a carried-back record the
      record encloses. */
  lemma ChildCarried(rs: seq<Record>, out: seq<Record>, lookup: map<seq<int>, seq<int>>, i: nat, k: seq<int>)
    returns (j: nat)
    requires i < |rs| && HierarchyExact(rs) && OrderKept(rs, out) && LinkedBy(rs, out, lookup)
    requires k in out[i].children
    ensures j < |out| && j != i && Encloses(out[i], out[j]) && k == out[j].key
  {
    LookupsMembers(lookup, rs[i].children);
    var x :| x in rs[i].children && k == lookup[x];
    j :| 0 <= j < |rs| && j != i && Encloses(rs[i], rs[j]) && x == rs[j].key;
  }

  /** A carried-back record enclosed by another is among its children. */
  lemma ChildKept(rs: seq<Record>, out: seq<Record>, lookup: map<seq<int>, seq<int>>, i: nat, j: nat)
    requires i < |rs| && j < |rs| && j != i && HierarchyExact(rs) && OrderKept(rs, out) && LinkedBy(rs, out, lookup)
    requires Encloses(out[i], out[j])
    ensures out[j].key in out[i].children
  {
    assert Encloses(rs[i], rs[j]);
    assert rs[j].key in rs[i].children;
    LookupsMembers(lookup, rs[i].children);
  }

  /** Carrying records back keeps the hierarchy exact. */
  lemma CarriedHierarchy(rs: seq<Record>, out: seq<Record>, lookup: map<seq<int>, seq<int>>)
    requires HierarchyExact(rs) && OrderKept(rs, out) && LinkedBy(rs, out, lookup)
    ensures HierarchyExact(out)
  {
    forall i | 0 <= i < |out|
      ensures forall k :: k in out[i].parents <==> exists j :: 0 <= j < |out| && j != i && Encloses(out[j], out[i]) && k == out[j].key
      ensures forall k :: k in out[i].children <==> exists j :: 0 <= j < |out| && j != i && Encloses(out[i], out[j]) && k == out[j].key
    {
      CarriedParents(rs, out, lookup, i);
      CarriedChildren(rs, out, lookup, i);
    }
  }

  lemma RelocationSound(text: string, w: string, rs: seq<Record>, c1: char, symb1: string, c2: char, symb2: string)
    requires Relocatable(text, w, rs, c1, symb1, c2, symb2) && HierarchyExact(rs)
    ensures var out := FixedRecords(text, w, rs, c1, symb1, c2, symb2);
      && CarriedBack(w, rs, out, c1, symb1, c2, symb2)
      && |out| == |rs| && DistinctKeys(out) && HierarchyExact(out)
      && forall R :: R in out ==> Delimited(text, symb1, symb2, R)
  {
    var out := FixedRecords(text, w, rs, c1, symb1, c2, symb2);
    FixedPlaced(text, w, rs, c1, symb1, c2, symb2);
    FixedLinked(text, w, rs, c1, symb1, c2, symb2);
    CarriedDistinct(w, rs, out, c1, symb1, c2, symb2);
    CarriedOrder(w, rs, out, c1, symb1, c2, symb2);
    CarriedHierarchy(rs, out, LookupFixed(w, rs, c1, symb1, c2, symb2));
  }

  /** `parse_elements_multi_letters`, corrected: whenever the catalogue
      repeats no character and the open placeholder is not part of `symb2`,
      `pe2` holds one record per record found in the working text, under
      its own key, with the hierarchy and the delimiters of each record as
      `parse_elements` promises them, now in the original text. */
  lemma MultiLettersSound(blocks: seq<seq<char>>, symb1: string, symb2: string, text: string)
    requires |symb1| > 0 && |symb2| > 0
    requires NoDuplicates(Flatten(blocks))
    requires Placeholders(blocks, text).0.Some? ==> Placeholders(blocks, text).0.value !in symb2
    ensures var out := MultiLettersRecords(blocks, symb1, symb2, text);
      var pe2 := MultiLetters(blocks, symb1, symb2, text).value;
      && |out| == |WorkingRecords(blocks, symb1, symb2, text)|
      && DistinctKeys(out) && HierarchyExact(out)
      && (forall R :: R in out ==> Delimited(text, symb1, symb2, R))
      && pe2.Keys == KeySet(out) && |pe2.Keys| == |out|
      && (forall i :: 0 <= i < |out| ==> out[i].key in pe2 && pe2[out[i].key] == out[i])
    ensures var (s, e) := Placeholders(blocks, text);
      s.Some? && e.Some? ==>
        var w := Working(text, symb1, symb2, s.value, e.value);
        ParseElementsSpec(s.value, e.value, w).Ok? ==>
          CarriedBack(w, ParseElementsSpec(s.value, e.value, w).value, MultiLettersRecords(blocks, symb1, symb2, text), s.value, symb1, e.value, symb2)
  {
    var out := MultiLettersRecords(blocks, symb1, symb2, text);
    var (s, e) := Placeholders(blocks, text);
    PlaceholdersChosen(blocks, text);
    if s.Some? && e.Some? {
      var c1, c2 := s.value, e.value;
      var w := Working(text, symb1, symb2, c1, c2);
      if ParseElementsSpec(c1, c2, w).Ok? {
        var rs := ParseElementsSpec(c1, c2, w).value;
        ParsedRecords(c1, c2, w);
        RoundTrip(text, symb1, symb2, c1, c2);
        assert Relocatable(text, w, rs, c1, symb1, c2, symb2);
        RelocationSound(text, w, rs, c1, symb1, c2, symb2);
        assert out == FixedRecords(text, w, rs, c1, symb1, c2, symb2);
      }
    }
    forall i | 0 <= i < |out| ensures out[i].key in ToDict(out) && ToDict(out)[out[i].key] == out[i] {
      ToDictLookup(out, i);
    }
    DistinctKeysCount(out);
  }

  /** Records with distinct keys give as many dict entries as records. */
  lemma {:induction false} DistinctKeysCount(rs: seq<Record>)
    requires DistinctKeys(rs)
    ensures |KeySet(rs)| == |rs|
  {
    if rs != [] {
      var init, last := rs[..|rs| - 1], rs[|rs| - 1];
      KeySetSnoc(rs);
      DistinctKeysCount(init);
      forall r | r in init ensures r.key != last.key {
        var k :| 0 <= k < |init| && init[k] == r;
        assert rs[k] == r;
      }
    }
  }
}

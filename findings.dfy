/** Two ways in which `parse_elements_multi_letters` as written loses the
    records `parse_elements` found in the working text, each shown on the
    as-written model; `MultiLetters.MultiLettersSound` states the intended
    behaviour of the corrected relocation. */
module Findings {
  import opened Base
  import opened IndexAll
  import opened Matcher
  import opened Hierarchy
  import opened Elements
  import opened MultiLetters

  // ---------------------------------------------------------------------
  // Nested elements: `origtext` still holds placeholders

  /** A string holding a character the text lacks never occurs in it. */
  lemma NotOccurring(text: string, o: string, ch: char)
    requires ch in o && ch !in text
    ensures forall p :: !OccursAt(text, o, p)
  {
    var k :| 0 <= k < |o| && o[k] == ch;
    forall p ensures !OccursAt(text, o, p) {
      if 0 <= p && p + |o| <= |text| {
        assert text[p..p + |o|][k] == text[p + k];
      }
    }
  }

  /** A record whose `origtext` holds a character the original text lacks
      is the IndexError of `[x for x in indi if x >= awv][0]`. */
  lemma ForeignNotFound(text: string, symb1: string, symb2: string, r: Record, ch: char)
    requires |symb1| > 0 && |r.key| > 0
    requires ch in OrigText(symb1, symb2, r) && ch !in text
    ensures Relocation(text, symb1, symb2, r) == Err(IndexError)
  {
    NotOccurring(text, OrigText(symb1, symb2, r), ch);
    RelocationFinds(text, symb1, symb2, r);
  }

  /** A record of the working text that encloses another has a placeholder
      strictly inside it. */
  lemma PlaceholderInside(w: string, c1: char, c2: char, a: Record, b: Record)
    requires a.start < a.end < |w| && |a.text| == a.end + 1 - a.start
    requires forall k :: 0 <= k < |a.text| ==> a.text[k] == w[a.start + k]
    requires PlaceholderSpan(w, c1, c2, b) && Encloses(a, b)
    ensures c1 in PyInner(a.text) || c2 in PyInner(a.text)
  {
    var inner := PyInner(a.text);
    if a.start < b.start {
      assert inner[b.start - a.start - 1] == a.text[b.start - a.start] == c1;
    } else {
      assert inner[b.end - a.start - 1] == a.text[b.end - a.start] == c2;
    }
  }

  /** The text of every record of the working text is its slice. */
  lemma ParsedTexts(c1: char, c2: char, w: string, i: nat)
    requires ParseElementsSpec(c1, c2, w).Ok? && i < |ParseElementsSpec(c1, c2, w).value|
    ensures var r := ParseElementsSpec(c1, c2, w).value[i];
      && r.start < r.end < |w| && |r.text| == r.end + 1 - r.start
      && forall k :: 0 <= k < |r.text| ==> r.text[k] == w[r.start + k]
  {
    MatchedPairs(w, c1, c2);
    var ps := GreedyMatch(w, c1, c2).value;
    assert ParseElementsSpec(c1, c2, w).value == BuildRecords(w, ps);
    RecordText(w, ps, i);
  }

  lemma RecordText(w: string, ps: seq<Pair>, i: nat)
    requires SpansText(w, ps) && i < |ps|
    ensures var r := BuildRecords(w, ps)[i];
      && r.start < r.end < |w| && |r.text| == r.end + 1 - r.start
      && forall k :: 0 <= k < |r.text| ==> r.text[k] == w[r.start + k]
  {
    SpanChoice(w, ps, i);
  }

  /** One record the `lookupdict` loop cannot place makes the whole loop
      raise. */
  lemma LookupRaises(text: string, symb1: string, symb2: string, rs: seq<Record>, i: nat)
    requires |symb1| > 0 && (forall r :: r in rs ==> |r.key| > 0) && i < |rs|
    requires Relocation(text, symb1, symb2, rs[i]).Err?
    ensures LookupAsWritten(text, symb1, symb2, rs) == Err(IndexError)
  {
    LookupSnoc(text, symb1, symb2, rs, i);
    LookupErrPrefix(text, symb1, symb2, rs, i + 1);
  }

  /** A record of the working text enclosing another cannot be placed. */
  lemma EnclosingNotFound(text: string, symb1: string, symb2: string, c1: char, c2: char, w: string, a: Record, b: Record)
    requires |symb1| > 0 && c1 !in text && c2 !in text
    requires a.start < a.end < |w| && |a.text| == a.end + 1 - a.start && |a.key| > 0
    requires forall k :: 0 <= k < |a.text| ==> a.text[k] == w[a.start + k]
    requires PlaceholderSpan(w, c1, c2, b) && Encloses(a, b)
    ensures Relocation(text, symb1, symb2, a) == Err(IndexError)
  {
    PlaceholderInside(w, c1, c2, a, b);
    var ch := if c1 in PyInner(a.text) then c1 else c2;
    ForeignNotFound(text, symb1, symb2, a, ch);
  }

  /** A record `parse_elements` finds with a child cannot be placed in a
      text that lacks both placeholders. */
  lemma NestedRecordNotFound(text: string, symb1: string, symb2: string, c1: char, c2: char, w: string, i: nat)
    requires |symb1| > 0 && c1 !in text && c2 !in text
    requires ParseElementsSpec(c1, c2, w).Ok?
    requires i < |ParseElementsSpec(c1, c2, w).value| && |ParseElementsSpec(c1, c2, w).value[i].children| > 0
    ensures var r := ParseElementsSpec(c1, c2, w).value[i];
      |r.key| > 0 && Relocation(text, symb1, symb2, r) == Err(IndexError)
  {
    var a, b := NestedPair(c1, c2, w, i);
    EnclosingNotFound(text, symb1, symb2, c1, c2, w, a, b);
  }

  /** A record with a child, and one record it encloses, with what
      `EnclosingNotFound` needs of them. */
  lemma NestedPair(c1: char, c2: char, w: string, i: nat) returns (a: Record, b: Record)
    requires ParseElementsSpec(c1, c2, w).Ok?
    requires i < |ParseElementsSpec(c1, c2, w).value| && |ParseElementsSpec(c1, c2, w).value[i].children| > 0
    ensures a == ParseElementsSpec(c1, c2, w).value[i]
    ensures a.start < a.end < |w| && |a.text| == a.end + 1 - a.start && |a.key| > 0
    ensures forall k :: 0 <= k < |a.text| ==> a.text[k] == w[a.start + k]
    ensures PlaceholderSpan(w, c1, c2, b) && Encloses(a, b)
  {
    ParsedTexts(c1, c2, w, i);
    var j := ChildOf(c1, c2, w, i);
    a, b := ParseElementsSpec(c1, c2, w).value[i], ParseElementsSpec(c1, c2, w).value[j];
  }

  /** A record with a child encloses another record of the working text,
      which spans from an open to a close placeholder. */
  lemma ChildOf(c1: char, c2: char, w: string, i: nat) returns (j: nat)
    requires ParseElementsSpec(c1, c2, w).Ok?
    requires i < |ParseElementsSpec(c1, c2, w).value| && |ParseElementsSpec(c1, c2, w).value[i].children| > 0
    ensures var rs := ParseElementsSpec(c1, c2, w).value;
      && j < |rs| && j != i && Encloses(rs[i], rs[j]) && |rs[i].key| > 0
      && PlaceholderSpan(w, c1, c2, rs[j])
  {
    var rs := ParseElementsSpec(c1, c2, w).value;
    ParsedRecords(c1, c2, w);
    assert rs[i].children[0] in rs[i].children;
    j :| 0 <= j < |rs| && j != i && Encloses(rs[i], rs[j]) && rs[i].children[0] == rs[j].key;
    assert rs[i] in rs && rs[j] in rs;
  }

  /** As written, any input whose working text has an element nested in
      another raises IndexError: the enclosing record's `origtext` keeps
      the placeholder of the inner one, a character chosen because the
      original text does not hold it. */
  lemma NestingRaises(blocks: seq<seq<char>>, symb1: string, symb2: string, text: string, i: nat)
    requires |symb1| > 0 && |symb2| > 0
    requires Placeholders(blocks, text).0.Some? && Placeholders(blocks, text).1.Some?
    requires var c1, c2 := Placeholders(blocks, text).0.value, Placeholders(blocks, text).1.value;
      var pe := ParseElementsSpec(c1, c2, Working(text, symb1, symb2, c1, c2));
      pe.Ok? && i < |pe.value| && |pe.value[i].children| > 0
    ensures MultiLettersAsWritten(blocks, symb1, symb2, text) == Err(IndexError)
  {
    var c1, c2 := Placeholders(blocks, text).0.value, Placeholders(blocks, text).1.value;
    PlaceholdersChosen(blocks, text);
    var w := Working(text, symb1, symb2, c1, c2);
    ParsedRecords(c1, c2, w);
    NestedRecordNotFound(text, symb1, symb2, c1, c2, w, i);
    LookupRaises(text, symb1, symb2, ParseElementsSpec(c1, c2, w).value, i);
  }

  /** `<p><p>x</p></p>` with the catalogue `a`, `b`: the working text is
      `aaxbb`, and the outer record, `aaxbb` at 0, is looked for as
      `<p>axb</p>`, which the original does not hold. */
  lemma NestedExample()
    ensures Relocation("<p><p>x</p></p>", "<p>", "</p>", Record(4, 0, 4, "aaxbb", [0, 1, 2, 3, 4], [], [[1, 2, 3]]))
         == Err(IndexError)
  {
    var r := Record(4, 0, 4, "aaxbb", [0, 1, 2, 3, 4], [], [[1, 2, 3]]);
    assert OrigText("<p>", "</p>", r)[3] == 'a';
    ForeignNotFound("<p><p>x</p></p>", "<p>", "</p>", r, 'a');
  }

  // ---------------------------------------------------------------------
  // Repeated elements: the search starts at a working-text position

  /** As written, a record relocates to the first copy of its `origtext`
      at or after its position in the WORKING text. Two records with the
      same text whose working positions both lie at or before that copy
      are given the same `lookupdict` value. */
  lemma SameTextCollides(text: string, symb1: string, symb2: string, r1: Record, r2: Record)
    requires |symb1| > 0 && |r1.key| > 0 && |r2.key| > 0
    requires r1.text == r2.text && 0 <= r1.key[0] <= r2.key[0]
    requires Relocation(text, symb1, symb2, r1).Ok? && r2.key[0] <= Relocation(text, symb1, symb2, r1).value[0]
    ensures Relocation(text, symb1, symb2, r2) == Relocation(text, symb1, symb2, r1)
  {
    var o := OrigText(symb1, symb2, r1);
    assert OrigText(symb1, symb2, r2) == o;
    RelocationFound(text, symb1, symb2, r1);
    RelocationFound(text, symb1, symb2, r2);
    SearchLater(text, o, r1.key[0], r2.key[0]);
  }

  /** Searching later, but not past the first find, gives the same
      relocation. */
  lemma SearchLater(l: string, n: string, a: nat, b: nat)
    requires |n| > 0 && a <= b && FirstAtOrAfter(l, n, a).Ok? && b <= FirstAtOrAfter(l, n, a).value[0]
    ensures FirstAtOrAfter(l, n, b) == FirstAtOrAfter(l, n, a)
  {
    FindFromLater(l, n, a, b);
  }

  /** Starting the search later, but not past the first find, finds the
      same. */
  lemma {:induction false} FindFromLater(l: string, n: string, a: nat, b: nat)
    requires |n| > 0 && a <= b && FindFrom(l, n, a).Some? && b <= FindFrom(l, n, a).value
    ensures FindFrom(l, n, b) == FindFrom(l, n, a)
    decreases b - a
  {
    if a < b {
      assert FindFrom(l, n, a) == FindFrom(l, n, a + 1);
      FindFromLater(l, n, a + 1, b);
    }
  }

  /** The search from `a` finds `b` when `n` starts at `b` and nowhere
      between. */
  lemma {:induction false} FindFromSkip(l: string, n: string, a: nat, b: nat)
    requires |n| > 0 && a <= b && OccursAt(l, n, b)
    requires forall p :: a <= p < b ==> !OccursAt(l, n, p)
    ensures FindFrom(l, n, a) == Some(b)
    decreases b - a
  {
    if a < b {
      assert !OccursAt(l, n, a);
      FindFromSkip(l, n, a + 1, b);
    }
  }

  /** Keys repeated in a list of records leave the dict built from it
      shorter than the list. */
  lemma {:induction false} KeysRepeat(rs: seq<Record>, i: nat, j: nat)
    requires i < j < |rs| && rs[i].key == rs[j].key
    ensures |KeySet(rs)| < |rs|
  {
    var init := rs[..|rs| - 1];
    KeySetSnoc(rs);
    if j == |rs| - 1 {
      assert rs[i] == init[i];
      assert rs[j].key in KeySet(init);
      KeysAtMost(init);
    } else {
      assert init[i] == rs[i] && init[j] == rs[j];
      KeysRepeat(init, i, j);
    }
  }

  lemma {:induction false} KeysAtMost(rs: seq<Record>)
    ensures |KeySet(rs)| <= |rs|
  {
    if rs != [] {
      KeySetSnoc(rs);
      KeysAtMost(rs[..|rs| - 1]);
    }
  }

  /** As written, two records given the same `lookupdict` value become one
      entry of `pe2`: the later overwrites the earlier. */
  lemma CollisionLoses(text: string, symb1: string, symb2: string, rs: seq<Record>, i: nat, j: nat)
    requires |symb1| > 0 && (forall r :: r in rs ==> |r.key| > 0) && KeysClosed(rs)
    requires LookupAsWritten(text, symb1, symb2, rs).Ok?
    requires i < j < |rs|
    requires LookupAsWritten(text, symb1, symb2, rs).value[rs[i].key] == LookupAsWritten(text, symb1, symb2, rs).value[rs[j].key]
    ensures var lookup := LookupAsWritten(text, symb1, symb2, rs).value;
      Covers(lookup, rs) && |ToDict(RelocatedAll(text, lookup, rs))| < |rs|
  {
    var lookup := LookupAsWritten(text, symb1, symb2, rs).value;
    assert rs[i] in rs && rs[j] in rs;
    var out := RelocatedAll(text, lookup, rs);
    KeysRepeat(out, i, j);
    assert ToDict(out).Keys == KeySet(out);
  }

  /** `<p>x</p><p>x</p><p>x</p>` with the catalogue `a`, `b`: the working
      text is `axbaxbaxb` and its records start at 0, 3 and 6. The copies of
      `<p>x</p>` are at 0, 8 and 16, and both the record at 3 and the record
      at 6 relocate to the copy at 8. */
  lemma RepeatedExample()
    ensures var text := "<p>x</p><p>x</p><p>x</p>";
      && Relocation(text, "<p>", "</p>", Record(2, 3, 5, "axb", [3, 4, 5], [], [])) == Ok(Range(8, 17))
      && Relocation(text, "<p>", "</p>", Record(2, 6, 8, "axb", [6, 7, 8], [], [])) == Ok(Range(8, 17))
  {
    RepeatedSecond("<p>x</p><p>x</p><p>x</p>", Record(2, 3, 5, "axb", [3, 4, 5], [], []));
    RepeatedThird("<p>x</p><p>x</p><p>x</p>", Record(2, 6, 8, "axb", [6, 7, 8], [], []));
  }

  /** The record `axb` at 3 relocates to the copy at 8. */
  lemma RepeatedSecond(text: string, r: Record)
    requires text == "<p>x</p><p>x</p><p>x</p>" && r == Record(2, 3, 5, "axb", [3, 4, 5], [], [])
    ensures Relocation(text, "<p>", "</p>", r) == Ok(Range(8, 17))
  {
    RepeatedFind();
    assert OrigText("<p>", "</p>", r) == "<p>x</p>";
    RelocationFound(text, "<p>", "</p>", r);
  }

  /** The record `axb` at 6 relocates to the copy at 8 as well. */
  lemma RepeatedThird(text: string, r: Record)
    requires text == "<p>x</p><p>x</p><p>x</p>" && r == Record(2, 6, 8, "axb", [6, 7, 8], [], [])
    ensures Relocation(text, "<p>", "</p>", r) == Ok(Range(8, 17))
  {
    RepeatedFind();
    assert OrigText("<p>", "</p>", r) == "<p>x</p>";
    RelocationFound(text, "<p>", "</p>", r);
  }

  lemma RepeatedFind()
    ensures FindFrom("<p>x</p><p>x</p><p>x</p>", "<p>x</p>", 3) == Some(8)
    ensures FindFrom("<p>x</p><p>x</p><p>x</p>", "<p>x</p>", 6) == Some(8)
  {
    var text, o := "<p>x</p><p>x</p><p>x</p>", "<p>x</p>";
    assert text[8..16] == o;
    forall p | 3 <= p < 8 ensures !OccursAt(text, o, p) {
      Mismatch(text, o, p);
    }
    FindFromSkip(text, o, 3, 8);
    FindFromSkip(text, o, 6, 8);
  }

  lemma Mismatch(text: string, o: string, p: nat)
    requires 2 <= |o| && p + 1 < |text|
    requires text[p] != o[0] || text[p + 1] != o[1]
    ensures !OccursAt(text, o, p)
  {
    if p + |o| <= |text| {
      assert text[p..p + |o|][0] == text[p];
      assert text[p..p + |o|][1] == text[p + 1];
    }
  }

  // ---------------------------------------------------------------------
  // Replacing a tag in a concrete text

  lemma ReplaceHit(t: string, pat: string, put: char)
    requires |pat| > 0
    ensures Replace(pat + t, pat, put) == [put] + Replace(t, pat, put)
  {
    assert (pat + t)[..|pat|] == pat;
    assert (pat + t)[|pat|..] == t;
  }

  /** No copy of `pat` can start at position `i` of `a`: the character
      there, or the next one within `a`, differs from `pat`'s. */
  predicate CannotStart(a: string, pat: string, i: nat)
    requires i < |a| && |pat| >= 2
  {
    a[i] != pat[0] || (i + 1 < |a| && a[i + 1] != pat[1])
  }

  lemma {:induction false} ReplaceSkip(a: string, b: string, pat: string, put: char)
    requires |pat| >= 2
    requires forall i :: 0 <= i < |a| ==> CannotStart(a, pat, i)
    ensures Replace(a + b, pat, put) == a + Replace(b, pat, put)
    decreases |a|
  {
    if a == [] {
      assert a + b == b;
    } else {
      forall i | 0 <= i < |a| - 1 ensures CannotStart(a[1..], pat, i) {
        assert CannotStart(a, pat, i + 1);
      }
      ReplaceSkip(a[1..], b, pat, put);
      ReplaceFirst(a, b, pat, put);
    }
  }

  /** No copy of `pat` starts the text, so its first character is kept. */
  lemma ReplaceFirst(a: string, b: string, pat: string, put: char)
    requires |pat| >= 2 && |a| > 0 && CannotStart(a, pat, 0)
    ensures Replace(a + b, pat, put) == [a[0]] + Replace(a[1..] + b, pat, put)
  {
    var s := a + b;
    assert s[1..] == a[1..] + b;
    if |s| >= |pat| {
      assert s[..|pat|] != pat by {
        assert s[..|pat|][0] == a[0];
        assert 1 < |a| ==> s[..|pat|][1] == a[1];
      }
    }
  }

  /** One copy of `pat` followed by a stretch `x` free of it. */
  lemma ReplaceUnit(x: string, rest: string, pat: string, put: char)
    requires |pat| >= 2
    requires forall i :: 0 <= i < |x| ==> CannotStart(x, pat, i)
    ensures Replace(pat + (x + rest), pat, put) == [put] + (x + Replace(rest, pat, put))
  {
    ReplaceHit(x + rest, pat, put);
    ReplaceSkip(x, rest, pat, put);
  }

  /** Three copies of `pat + x` with no copy of `pat` inside `x`. */
  lemma ReplaceLeading(x: string, pat: string, put: char)
    requires |pat| >= 2
    requires forall i :: 0 <= i < |x| ==> CannotStart(x, pat, i)
    ensures Replace(pat + (x + (pat + (x + (pat + x)))), pat, put) == [put] + (x + ([put] + (x + ([put] + x))))
  {
    ReplaceUnit(x, pat + (x + (pat + x)), pat, put);
    ReplaceUnit(x, pat + x, pat, put);
    assert x == x + [];
    ReplaceUnit(x, [], pat, put);
  }

  /** Three copies of `y + pat` with no copy of `pat` inside `y`. */
  lemma ReplaceTrailing(y: string, pat: string, put: char)
    requires |pat| >= 2
    requires forall i :: 0 <= i < |y| ==> CannotStart(y, pat, i)
    ensures Replace(y + (pat + (y + (pat + (y + pat)))), pat, put) == y + ([put] + (y + ([put] + (y + [put]))))
  {
    ReplaceSkip(y, pat + (y + (pat + (y + pat))), pat, put);
    ReplaceUnit(y, pat + (y + pat), pat, put);
    ReplaceUnit(y, pat, pat, put);
    ReplaceHit([], pat, put);
    assert pat + [] == pat;
  }

  // ---------------------------------------------------------------------
  // End to end: `<p><p>x</p></p>` raises

  lemma OpenReplaced(text: string, r1: string)
    requires text == "<p><p>x</p></p>" && r1 == "x</p></p>"
    ensures Replace(text, "<p>", 'a') == "aa" + r1
  {
    assert text == "<p>" + ("<p>" + r1);
    ReplaceHit("<p>" + r1, "<p>", 'a');
    ReplaceHit(r1, "<p>", 'a');
    NoOpenTag(r1);
    ReplaceSkip(r1, "", "<p>", 'a');
    assert r1 + "" == r1;
  }

  lemma NoOpenTag(r1: string)
    requires r1 == "x</p></p>"
    ensures forall i :: 0 <= i < |r1| ==> CannotStart(r1, "<p>", i)
  {
    assert |r1| == 9 && r1[1] == '<' && r1[2] == '/' && r1[5] == '<' && r1[6] == '/';
    assert forall i :: 0 <= i < |r1| && i != 1 && i != 5 ==> r1[i] != '<';
  }

  lemma CloseReplaced(u: string)
    requires u == "aax</p></p>"
    ensures Replace(u, "</p>", 'b') == "aaxbb"
  {
    assert u == "aax" + ("</p>" + ("</p>" + ""));
    ReplaceSkip("aax", "</p>" + ("</p>" + ""), "</p>", 'b');
    ReplaceHit("</p>" + "", "</p>", 'b');
    ReplaceHit("", "</p>", 'b');
  }

  lemma NestedWorking(text: string)
    requires text == "<p><p>x</p></p>"
    ensures Working(text, "<p>", "</p>", 'a', 'b') == "aaxbb"
  {
    OpenReplaced(text, "x</p></p>");
    CloseReplaced("aa" + "x</p></p>");
  }

  lemma PlaceholdersFree(text: string)
    requires text == "<p><p>x</p></p>" || text == "<p>x</p><p>x</p><p>x</p>"
    ensures 'a' !in text && 'b' !in text
  {
  }

  lemma ABPlaceholders(blocks: seq<seq<char>>, text: string)
    requires blocks == [['a', 'b']] && 'a' !in text && 'b' !in text
    ensures Placeholders(blocks, text) == (Some('a'), Some('b'))
  {
    assert blocks[..0] == [];
    assert Flatten(blocks) == ['a', 'b'];
    assert ['a', 'b'][..1] == ['a'] && ['a'][..0] == [];
    assert Absent(['a'], text) == ['a'];
  }

  lemma NestedLists(w: string)
    requires w == "aaxbb"
    ensures OpensDesc(w, 'a') == [1, 0] && ClosesAsc(w, 'b') == [3, 4]
  {
    assert |w| == 5 && w[0] == 'a' && w[1] == 'a' && w[2] == 'x' && w[3] == 'b' && w[4] == 'b';
    assert FindFrom(w, ['a'], 5) == None;
    assert FindFrom(w, ['a'], 4) == None;
    assert FindFrom(w, ['a'], 3) == None;
    assert FindFrom(w, ['a'], 2) == None;
    assert FindFrom(w, ['a'], 1) == Some(1);
    assert FindFrom(w, ['a'], 0) == Some(0);
    assert Occurrences(w, ['a'], 2) == [];
    assert Occurrences(w, ['a'], 1) == [1];
    assert Occurrences(w, ['a'], 0) == [0, 1];
    assert Reverse([0, 1]) == [1, 0] by { assert [0, 1][1..] == [1]; }
    assert FindFrom(w, ['b'], 5) == None;
    assert FindFrom(w, ['b'], 4) == Some(4);
    assert FindFrom(w, ['b'], 3) == Some(3);
    assert FindFrom(w, ['b'], 2) == Some(3);
    assert FindFrom(w, ['b'], 1) == Some(3);
    assert FindFrom(w, ['b'], 0) == Some(3);
    assert Occurrences(w, ['b'], 5) == [];
    assert Occurrences(w, ['b'], 4) == [4];
    assert Occurrences(w, ['b'], 0) == [3, 4];
  }

  lemma NestedBalanced(w: string)
    requires w == "aaxbb"
    ensures Balanced(w, 'a', 'b', 1, 3) && Balanced(w, 'a', 'b', 0, 4)
  {
    assert PySlice(w, 1, 4) == "axb";
    assert Count("axb", 'a') == 1 && Count("axb", 'b') == 1;
    assert PySlice(w, 0, 5) == "aaxbb";
    assert Count("aaxbb", 'a') == 2 && Count("aaxbb", 'b') == 2;
  }

  lemma NestedMatch(w: string)
    requires w == "aaxbb"
    ensures GreedyMatch(w, 'a', 'b') == Ok([Pair(1, 3), Pair(0, 4)])
  {
    NestedLists(w);
    NestedBalanced(w);
    var bal := BalanceTest(w, 'a', 'b');
    var next := NextPair(bal, [1, 0], [3, 4]);
    assert RoundCount(w, 'a', 'b') == 2;
    assert Used([]) == {};
    assert FirstClose(bal, {}, 1, [3, 4], 0) == Some(3);
    assert next([]) == Some(Pair(1, 3));
    var used := Used([Pair(1, 3)]);
    assert used == {1, 3};
    assert FirstClose(bal, used, 0, [3, 4], 1) == Some(4);
    assert FirstClose(bal, used, 0, [3, 4], 0) == Some(4);
    assert FirstPair(bal, used, [1, 0], [3, 4], 1) == Some(Pair(0, 4));
    assert next([Pair(1, 3)]) == Some(Pair(0, 4));
    assert [Pair(1, 3)] + [Pair(0, 4)] == [Pair(1, 3), Pair(0, 4)];
    assert Rounds(next, [Pair(1, 3)], 1) == Ok([Pair(1, 3), Pair(0, 4)]);
    assert [] + [Pair(1, 3)] == [Pair(1, 3)];
    assert Rounds(next, [], 2) == Ok([Pair(1, 3), Pair(0, 4)]);
    assert GreedyMatch(w, 'a', 'b') == Rounds(next, [], 2);
  }

  lemma NestedPairs(w: string)
    requires w == "aaxbb"
    ensures var m := GreedyMatch(w, 'a', 'b');
      m.Ok? && |m.value| == 2 && m.value[0] == Pair(1, 3) && m.value[1] == Pair(0, 4)
  {
    NestedMatch(w);
  }

  /** `parse_elements` on `aaxbb` gives a record with a child. */
  lemma NestedParse(w: string) returns (i: nat)
    requires var m := GreedyMatch(w, 'a', 'b');
      m.Ok? && |m.value| == 2 && m.value[0] == Pair(1, 3) && m.value[1] == Pair(0, 4)
    ensures var pe := ParseElementsSpec('a', 'b', w);
      pe.Ok? && i < |pe.value| && |pe.value[i].children| > 0
  {
    MatchedPairs(w, 'a', 'b');
    i := EnclosingPairHasChild(w, GreedyMatch(w, 'a', 'b').value, 1, 0);
  }

  lemma NestedEndToEnd(blocks: seq<seq<char>>, symb1: string, symb2: string, text: string)
    requires blocks == [['a', 'b']] && symb1 == "<p>" && symb2 == "</p>" && text == "<p><p>x</p></p>"
    ensures MultiLettersAsWritten(blocks, symb1, symb2, text) == Err(IndexError)
  {
    PlaceholdersFree(text);
    ABPlaceholders(blocks, text);
    NestedWorking(text);
    NestedPairs(Working(text, symb1, symb2, 'a', 'b'));
    var i := NestedParse(Working(text, symb1, symb2, 'a', 'b'));
    NestingRaises(blocks, symb1, symb2, text, i);
  }

  // ---------------------------------------------------------------------
  // End to end: `<p>x</p><p>x</p><p>x</p>` keeps two of three records

  lemma TagFree(x: string)
    requires x == "x</p>"
    ensures forall i :: 0 <= i < |x| ==> CannotStart(x, "<p>", i)
  {
    assert |x| == 5 && x[1] == '<' && x[2] == '/';
    assert forall i :: 0 <= i < |x| && i != 1 ==> x[i] != '<';
  }

  lemma RepeatedOpenReplaced(text: string, x: string)
    requires text == "<p>x</p><p>x</p><p>x</p>" && x == "x</p>"
    ensures Replace(text, "<p>", 'a') == "a" + x + "a" + x + "a" + x
  {
    TagFree(x);
    assert text == "<p>" + (x + ("<p>" + (x + ("<p>" + x))));
    ReplaceLeading(x, "<p>", 'a');
  }

  lemma NoCloseTag(y: string)
    requires y == "ax"
    ensures forall i :: 0 <= i < |y| ==> CannotStart(y, "</p>", i)
  {
    assert |y| == 2 && y[0] == 'a' && y[1] == 'x';
  }

  lemma RepeatedCloseReplaced(u: string, y: string)
    requires y == "ax" && u == y + "</p>" + y + "</p>" + y + "</p>"
    ensures Replace(u, "</p>", 'b') == y + "b" + y + "b" + y + "b"
  {
    NoCloseTag(y);
    assert u == y + ("</p>" + (y + ("</p>" + (y + "</p>"))));
    ReplaceTrailing(y, "</p>", 'b');
  }

  lemma RepeatedWorking(text: string)
    requires text == "<p>x</p><p>x</p><p>x</p>"
    ensures Working(text, "<p>", "</p>", 'a', 'b') == "axbaxbaxb"
  {
    var x, y := "x</p>", "ax";
    RepeatedOpenReplaced(text, x);
    Regroup(x, y);
    RepeatedCloseReplaced(Replace(text, "<p>", 'a'), y);
  }

  lemma Regroup(x: string, y: string)
    requires x == "x</p>" && y == "ax"
    ensures "a" + x + "a" + x + "a" + x == y + "</p>" + y + "</p>" + y + "</p>"
  {
  }

  lemma RepeatedLists(w: string)
    requires w == "axbaxbaxb"
    ensures OpensDesc(w, 'a') == [6, 3, 0] && ClosesAsc(w, 'b') == [2, 5, 8]
  {
    RepeatedOpens(w);
    RepeatedCloses(w);
  }

  lemma RepeatedOpens(w: string)
    requires w == "axbaxbaxb"
    ensures Occurrences(w, ['a'], 0) == [0, 3, 6]
  {
    assert |w| == 9;
    assert w[0] == 'a' && w[1] == 'x' && w[2] == 'b' && w[3] == 'a' && w[4] == 'x' && w[5] == 'b';
    assert w[6] == 'a' && w[7] == 'x' && w[8] == 'b';
    assert FindFrom(w, ['a'], 9) == None;
    assert FindFrom(w, ['a'], 8) == None;
    assert FindFrom(w, ['a'], 7) == None;
    assert Occurrences(w, ['a'], 7) == [];
    assert FindFrom(w, ['a'], 6) == Some(6);
    assert FindFrom(w, ['a'], 5) == Some(6);
    assert FindFrom(w, ['a'], 4) == Some(6);
    assert Occurrences(w, ['a'], 4) == [6];
    assert FindFrom(w, ['a'], 3) == Some(3);
    assert FindFrom(w, ['a'], 2) == Some(3);
    assert FindFrom(w, ['a'], 1) == Some(3);
    assert Occurrences(w, ['a'], 1) == [3, 6];
    assert FindFrom(w, ['a'], 0) == Some(0);
  }

  lemma RepeatedCloses(w: string)
    requires w == "axbaxbaxb"
    ensures Occurrences(w, ['b'], 0) == [2, 5, 8]
  {
    assert |w| == 9;
    assert w[0] == 'a' && w[1] == 'x' && w[2] == 'b' && w[3] == 'a' && w[4] == 'x' && w[5] == 'b';
    assert w[6] == 'a' && w[7] == 'x' && w[8] == 'b';
    assert FindFrom(w, ['b'], 9) == None;
    assert Occurrences(w, ['b'], 9) == [];
    assert FindFrom(w, ['b'], 8) == Some(8);
    assert FindFrom(w, ['b'], 7) == Some(8);
    assert FindFrom(w, ['b'], 6) == Some(8);
    assert Occurrences(w, ['b'], 6) == [8];
    assert FindFrom(w, ['b'], 5) == Some(5);
    assert FindFrom(w, ['b'], 4) == Some(5);
    assert FindFrom(w, ['b'], 3) == Some(5);
    assert Occurrences(w, ['b'], 3) == [5, 8];
    assert FindFrom(w, ['b'], 2) == Some(2);
    assert FindFrom(w, ['b'], 1) == Some(2);
    assert FindFrom(w, ['b'], 0) == Some(2);
  }

  lemma RepeatedBalanced(w: string, k: nat)
    requires w == "axbaxbaxb" && k % 3 == 0 && k < 9
    ensures Balanced(w, 'a', 'b', k, k + 2)
  {
    assert PySlice(w, k, k + 3) == "axb";
    assert Count("axb", 'a') == 1 && Count("axb", 'b') == 1;
  }

  /** The scan of each round over `axbaxbaxb`: the first round pairs the
      last open with the close after it. */
  lemma RepeatedRound1(w: string, bal: PairTest)
    requires w == "axbaxbaxb" && bal == BalanceTest(w, 'a', 'b')
    ensures NextPair(bal, [6, 3, 0], [2, 5, 8])([]) == Some(Pair(6, 8))
  {
    RepeatedBalanced(w, 6);
    assert Used([]) == {};
    assert FirstClose(bal, {}, 6, [2, 5, 8], 0) == Some(8);
  }

  lemma RepeatedRound2(w: string, bal: PairTest)
    requires w == "axbaxbaxb" && bal == BalanceTest(w, 'a', 'b')
    ensures NextPair(bal, [6, 3, 0], [2, 5, 8])([Pair(6, 8)]) == Some(Pair(3, 5))
  {
    RepeatedBalanced(w, 3);
    assert Used([Pair(6, 8)]) == {6, 8};
    assert FirstClose(bal, {6, 8}, 3, [2, 5, 8], 0) == Some(5);
    assert FirstPair(bal, {6, 8}, [6, 3, 0], [2, 5, 8], 0) == Some(Pair(3, 5));
  }

  lemma RepeatedRound3(w: string, bal: PairTest)
    requires w == "axbaxbaxb" && bal == BalanceTest(w, 'a', 'b')
    ensures NextPair(bal, [6, 3, 0], [2, 5, 8])([Pair(6, 8), Pair(3, 5)]) == Some(Pair(0, 2))
  {
    RepeatedBalanced(w, 0);
    assert Used([Pair(6, 8), Pair(3, 5)]) == {6, 8, 3, 5};
    assert FirstClose(bal, {6, 8, 3, 5}, 0, [2, 5, 8], 0) == Some(2);
    assert FirstPair(bal, {6, 8, 3, 5}, [6, 3, 0], [2, 5, 8], 1) == Some(Pair(0, 2));
  }

  lemma RepeatedPairs(w: string)
    requires w == "axbaxbaxb"
    ensures var m := GreedyMatch(w, 'a', 'b');
      m.Ok? && |m.value| == 3 && m.value[0] == Pair(6, 8) && m.value[1] == Pair(3, 5) && m.value[2] == Pair(0, 2)
  {
    RepeatedMatch(w);
  }

  lemma RepeatedMatch(w: string)
    requires w == "axbaxbaxb"
    ensures GreedyMatch(w, 'a', 'b') == Ok([Pair(6, 8), Pair(3, 5), Pair(0, 2)])
  {
    RepeatedLists(w);
    var bal := BalanceTest(w, 'a', 'b');
    var next := NextPair(bal, [6, 3, 0], [2, 5, 8]);
    RepeatedRound1(w, bal);
    RepeatedRound2(w, bal);
    RepeatedRound3(w, bal);
    assert RoundCount(w, 'a', 'b') == 3;
    var p1, p2, p3 := Pair(6, 8), Pair(3, 5), Pair(0, 2);
    assert [p1] + [p2] == [p1, p2] && [p1, p2] + [p3] == [p1, p2, p3] && [] + [p1] == [p1];
    assert Rounds(next, [p1, p2], 1) == Ok([p1, p2, p3]);
    assert Rounds(next, [p1], 2) == Ok([p1, p2, p3]);
    assert Rounds(next, [], 3) == Ok([p1, p2, p3]);
    assert GreedyMatch(w, 'a', 'b') == Rounds(next, [], 3);
  }

  /** `axb` at 0 relocates to the first copy of `<p>x</p>`. */
  lemma RepeatedAtZero(text: string, r: Record)
    requires text == "<p>x</p><p>x</p><p>x</p>" && r.text == "axb" && |r.key| > 0 && r.key[0] == 0
    ensures Relocation(text, "<p>", "</p>", r) == Ok(Range(0, 9))
  {
    var o := "<p>x</p>";
    assert OrigText("<p>", "</p>", r) == o;
    assert text[0..8] == o;
    assert FindFrom(text, o, 0) == Some(0);
    RelocationFinds(text, "<p>", "</p>", r);
  }

  /** `axb` at 3 or 6 relocates to the second copy. */
  lemma RepeatedLater(text: string, r: Record)
    requires text == "<p>x</p><p>x</p><p>x</p>" && r.text == "axb" && |r.key| > 0 && (r.key[0] == 3 || r.key[0] == 6)
    ensures Relocation(text, "<p>", "</p>", r) == Ok(Range(8, 17))
  {
    RepeatedFind();
    assert OrigText("<p>", "</p>", r) == "<p>x</p>";
    RelocationFinds(text, "<p>", "</p>", r);
  }

  /** The three thirds of the working text. */
  lemma AxbThrice(w: string)
    requires w == "axbaxbaxb"
    ensures |w| == 9 && w[0..3] == "axb" && w[3..6] == "axb" && w[6..9] == "axb"
  {
  }

  /** A record built from one of the three pairs relocates to the first copy
      when it starts at 0 and to the second otherwise. */
  lemma RepeatedRecordFacts(w: string, text: string, ps: seq<Pair>, r: Record)
    requires text == "<p>x</p><p>x</p><p>x</p>"
    requires |w| == 9 && w[0..3] == "axb" && w[3..6] == "axb" && w[6..9] == "axb"
    requires |ps| == 3 && ps[0] == Pair(6, 8) && ps[1] == Pair(3, 5) && ps[2] == Pair(0, 2)
    requires Pair(r.start, r.end) in ps && r.text == w[r.start..r.end + 1] && r.key == Range(r.start, r.end + 1)
    ensures |r.key| > 0
    ensures Relocation(text, "<p>", "</p>", r) == Ok(if r.start == 0 then Range(0, 9) else Range(8, 17))
  {
    RepeatedStart(ps, r);
    assert r.key[0] == r.start;
    if r.start == 0 {
      RepeatedAtZero(text, r);
    } else {
      RepeatedLater(text, r);
    }
  }

  /** A record whose span is one of the three committed pairs starts at
      0, 3 or 6. */
  lemma RepeatedStart(ps: seq<Pair>, r: Record)
    requires |ps| == 3 && ps[0] == Pair(6, 8) && ps[1] == Pair(3, 5) && ps[2] == Pair(0, 2)
    requires Pair(r.start, r.end) in ps
    ensures r.start == 0 || r.start == 3 || r.start == 6
    ensures r.end == r.start + 2
  {
    var i :| 0 <= i < |ps| && ps[i] == Pair(r.start, r.end);
  }

  lemma RepeatedStarts(w: string, ps: seq<Pair>, rs: seq<Record>) returns (k0: nat, k1: nat)
    requires |ps| == 3 && ps[1] == Pair(3, 5) && ps[2] == Pair(0, 2)
    requires SpansText(w, ps) && rs == BuildRecords(w, ps)
    ensures k0 < |rs| && k1 < |rs| && rs[k0].start == 0 && rs[k1].start == 3
  {
    k0 := PairRecorded(w, ps, 2);
    k1 := PairRecorded(w, ps, 1);
  }

  /** The records `parse_elements` finds in `axbaxbaxb`: the three spans
      `axb`, each relocated to the first copy of `<p>x</p>` at or after its
      working-text start. */
  lemma RepeatedRecords(w: string, text: string, ps: seq<Pair>, rs: seq<Record>)
    requires text == "<p>x</p><p>x</p><p>x</p>"
    requires |w| == 9 && w[0..3] == "axb" && w[3..6] == "axb" && w[6..9] == "axb"
    requires |ps| == 3 && ps[0] == Pair(6, 8) && ps[1] == Pair(3, 5) && ps[2] == Pair(0, 2)
    requires SpansText(w, ps) && rs == BuildRecords(w, ps)
    ensures forall k :: 0 <= k < |rs| ==> (|rs[k].key| > 0 &&
      Relocation(text, "<p>", "</p>", rs[k]) == Ok(if rs[k].start == 0 then Range(0, 9) else Range(8, 17)))
  {
    forall k | 0 <= k < |rs|
      ensures |rs[k].key| > 0
      ensures Relocation(text, "<p>", "</p>", rs[k]) == Ok(if rs[k].start == 0 then Range(0, 9) else Range(8, 17))
    {
      SpanChoice(w, ps, k);
      RepeatedRecordFacts(w, text, ps, rs[k]);
    }
  }

  /** The records relocate to two distinct spans between them. */
  lemma TwoSpans(text: string, symb1: string, symb2: string, rs: seq<Record>, k0: nat, k1: nat)
    requires |symb1| > 0
    requires forall k :: 0 <= k < |rs| ==> (|rs[k].key| > 0 &&
      Relocation(text, symb1, symb2, rs[k]) == Ok(if rs[k].start == 0 then Range(0, 9) else Range(8, 17)))
    requires k0 < |rs| && k1 < |rs| && rs[k0].start == 0 && rs[k1].start == 3
    ensures forall r :: r in rs ==> |r.key| > 0 && Relocation(text, symb1, symb2, r).Ok?
    ensures |set r | r in rs :: Relocation(text, symb1, symb2, r).value| == 2
  {
    var spans := set r | r in rs :: Relocation(text, symb1, symb2, r).value;
    forall r | r in rs ensures |r.key| > 0 && Relocation(text, symb1, symb2, r).Ok?
      && (Relocation(text, symb1, symb2, r).value == Range(0, 9) || Relocation(text, symb1, symb2, r).value == Range(8, 17))
    {
      var k :| 0 <= k < |rs| && rs[k] == r;
    }
    assert rs[k0] in rs && rs[k1] in rs;
    assert Range(0, 9) != Range(8, 17) by { assert Range(0, 9)[0] != Range(8, 17)[0]; }
    assert spans == {Range(0, 9), Range(8, 17)};
  }

  lemma RepeatedEndToEnd(blocks: seq<seq<char>>, symb1: string, symb2: string, text: string)
    requires blocks == [['a', 'b']] && symb1 == "<p>" && symb2 == "</p>" && text == "<p>x</p><p>x</p><p>x</p>"
    ensures MultiLettersAsWritten(blocks, symb1, symb2, text).Ok?
    ensures |MultiLettersAsWritten(blocks, symb1, symb2, text).value| == 2
  {
    PlaceholdersFree(text);
    ABPlaceholders(blocks, text);
    RepeatedWorking(text);
    var w := Working(text, symb1, symb2, 'a', 'b');
    RepeatedPairs(w);
    AxbThrice(w);
    MatchedPairs(w, 'a', 'b');
    var ps := GreedyMatch(w, 'a', 'b').value;
    var rs := BuildRecords(w, ps);
    RepeatedRecords(w, text, ps, rs);
    var k0, k1 := RepeatedStarts(w, ps, rs);
    TwoSpans(text, symb1, symb2, rs, k0, k1);
    AsWrittenKeys(blocks, symb1, symb2, text, rs);
  }
}

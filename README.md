# parifinder, the matching core, in Dafny

parifinder finds pairs of delimiters in a text, such as brackets or tags, and
reports each matched pair as a span with its place in the nesting hierarchy.
This project models the four functions that do that work in `__init__.py` and
proves what they promise:

- `index_all(l, n)`: every position at which `n` occurs in `l`. This is either
  an element search over a list of characters or a substring search over a
  string (module `IndexAll`, file `index_all.dfy`).
- `parse_elements(symb1, symb2, text)`: the greedy single-character matcher
  and the hierarchy builder. The matcher commits one pair per round: the
  rightmost unused open, with the leftmost unused close after it that gives a
  balanced slice. The builder then sorts the spans by (size, start, end) and
  gives each span its key, its parents and its children.
  - Module `Matcher` specifies the rounds over any pair test.
  - Module `Elements` holds the loops as the source runs them.
  - Module `Hierarchy` holds the records, Python's stable `sorted` and the
    parent and child relations.
- `parse_elements_multi_letters(symb1, symb2, text)`: the adapter for
  delimiters of any length (module `MultiLetters`). It does four things:
  1. It picks two characters absent from the text out of a catalogue.
  2. It substitutes them for the delimiters.
  3. It runs `parse_elements` on that working text.
  4. It carries each span back to the original text: the `lookupdict` loop,
     then the `pe2` loop.
- `parse_multipairs(pairs, text)`: the adapter run once per pair of
  delimiters, skipping a pair whose call raises (module `Multipairs`). The
  loop is modelled for either adapter: the one the code calls, or the
  corrected one described below.

Where the source changes state step by step, the model is a method with a
loop. Each such method is proved equal to a specification function, and the
lemmas state what that function promises:

- `IndexAll.IndexAll`;
- the round loop `Elements.MatchRounds` and its scan `Elements.ScanRound`;
- the placeholder search `MultiLetters.PickPlaceholders` and
  `MultiLetters.ScanBlock`;
- `MultiLetters.FillLookup` and `MultiLetters.FillPe2`;
- `Multipairs.ParseMultipairs`.

The record building is a set of pure functions over the committed pairs.

Python's exceptions are `Result` values, and the only one the core raises is
`IndexError`:

- `sorted([])[0]` when a round finds no candidate;
- `[...][0]` when a span cannot be found again in the original text.

Keys are the tuple `range(start, end + 1)`, written as `seq<int>`. A dict is
either a `map`, or the sequence of its values in insertion order.

The `try` around `parse_elements` (`__init__.py:2440-2443`) turns a failed
match into `{}`, which suggests the adapter is meant to report failure that
way. The `try` covers only that call, though. The `[...][0]` of the
`lookupdict` loop (`__init__.py:2451`) lies outside it and raises IndexError
to the caller. The model follows the code (`MultiLetters.AsWrittenOutcomes`,
`Findings.NestingRaises`). `parse_multipairs` catches that error and drops the
pair (`Multipairs.MultipairsExact`).

Verifying the adapter as written shows two ways it loses the spans that
`parse_elements` found; see "## Findings". `MultiLetters.MultiLetters` is the
corrected adapter. It carries each position of the working text back through
the substitution (`MultiLetters.Origin`) instead of searching for the span's
text. The properties the adapter evidently intends are proved of it in
`MultiLetters.MultiLettersSound`.

## Model

| member | source | states |
|---|---|---|
| Base.PySlice | __init__.py:2363 | `s[i:j]` with clamped bounds: its length, each element `s[i + k]`, and the Dafny slice when the bounds are in range |
| Base.Range | __init__.py:2383-2384 | `tuple(range(lo, hi))`: `hi - lo` entries (none when `lo >= hi`), the k-th being `lo + k` |
| Base.RangeMembers | __init__.py:2383 | `x` is in `range(lo, hi)` exactly when `lo <= x < hi` |
| Base.ReverseOfIncreasing | __init__.py:2344 | `sorted(index_all(...), reverse=True)` of an increasing list is strictly decreasing with the same members |
| Base.CountAppend | __init__.py:2364 | `count` of a concatenation is the sum of the counts |
| IndexAll.OccursAtSingle | __init__.py:2334 | an element search is a search for the one-element needle `[x]` |
| IndexAll.FindFrom | __init__.py:2334 | `l[from:].index(n)`: the first start of `n` at or after `from`, or None for the ValueError; what it finds is stated in `IndexAll.FindFromSpec` |
| IndexAll.FindFromSpec | __init__.py:2334 | `l[from:].index(n)` finds the first start of `n` at or after `from`, and raises ValueError (None) only when there is none |
| IndexAll.Occurrences | __init__.py:2329-2339 | the list `index_all` builds, one search after another; stated exactly in `IndexAll.OccurrencesExact` |
| IndexAll.OccurrencesExact | __init__.py:2329-2339 | the positions found are strictly increasing and are exactly the starts of `n` at or after the start point, overlapping ones included |
| IndexAll.ElementOccurrences | __init__.py:2329-2339 | over a list: exactly the indices holding `x`, in increasing order |
| IndexAll.OccurrencesCount | __init__.py:2329-2339 | over a list, as many positions as `l.count(x)` |
| IndexAll.CollectStep | __init__.py:2334-2336 | recording a hit and resuming one past it keeps the loop invariant, and `indototal` strictly increases |
| IndexAll.CollectDone | __init__.py:2337-2338 | when the search raises, `allindex` holds every start |
| IndexAll.IndexAll | __init__.py:2329-2339 | the loop returns every start of `n` in `l`, strictly increasing, and nothing else |
| Matcher.FirstClose | __init__.py:2358-2368 | a close found for `auf` is in `kla2`, unused, after `auf` and balanced |
| Matcher.Balanced | __init__.py:2363-2364 | the slice `text[auf:zu+1]` holds as many `symb1` as `symb2` |
| Matcher.FirstCloseNone | __init__.py:2358-2368 | when the inner scan finds nothing, no later close is admissible |
| Matcher.FirstCloseLeftmost | __init__.py:2358 | over ascending closes, the close found is the leftmost admissible one |
| Matcher.FirstPair | __init__.py:2355-2370 | a pair found has an unused open of `kla1` and the first admissible close for that open |
| Matcher.FirstPairNone | __init__.py:2355-2370 | when a round finds nothing, no unused open has any admissible close |
| Matcher.FirstPairRightmost | __init__.py:2355 | over descending opens, the open found is the rightmost one with an admissible close |
| Matcher.NextPair | __init__.py:2353-2370 | one round's scan over the positions the committed pairs leave unused; what it finds is stated in `Matcher.FirstPair` and `Matcher.FirstPairNone` |
| Matcher.Rounds | __init__.py:2352-2375 | `lilen` rounds of the scan, each committing its pair or raising IndexError; stated in `Matcher.RoundsSound` and `Matcher.RoundsFailure` |
| Matcher.GreedyMatch | __init__.py:2343-2379 | the pairs `parse_elements` commits, or its IndexError; stated in `Matcher.GreedyMatchSound` and `Matcher.GreedyMatchFailure` |
| Matcher.RoundsNext | __init__.py:2352-2375 | a round that finds nothing is the IndexError of `sorted([])[0]`; otherwise its pair is committed and the rounds go on |
| Matcher.CommitKeepsValid | __init__.py:2372-2375 | committing the round's pair keeps every pair well formed and balanced, with no position paired twice |
| Matcher.RoundsSound | __init__.py:2352-2379 | rounds that return give one pair per round, each the first find of its round, with no position used twice |
| Matcher.RoundsFailure | __init__.py:2371 | rounds that raise reach a state whose scan finds nothing, in fewer rounds than asked |
| Matcher.ScanListsOfText | __init__.py:2343-2345 | `kla1` holds exactly the positions of `symb1`, descending; `kla2` those of `symb2`, ascending |
| Matcher.GreedyMatchSound | __init__.py:2342-2379 | on success: `lilen` pairs, each with `auf < zu`, the right symbols at both ends and a balanced slice; no position paired twice; each pair the first find of its round |
| Matcher.CommitmentOrder | __init__.py:2355-2370 | the committed pair is balanced and unused; its close is the leftmost balanced unused close after its open, and its open the rightmost open that has one |
| Matcher.GreedyMatchFailure | __init__.py:2350-2371 | on IndexError: fewer than `lilen` pairs were committed and no balanced pair of unused positions remains |
| Elements.ScanRound | __init__.py:2353-2370 | the nested scan with its two skips returns `allresultsfinal`, the round's first admissible pair or nothing |
| Elements.ScanLists | __init__.py:2343-2345 | `kla1` and `kla2` are the descending open positions and the ascending close positions |
| Elements.MatchRounds | __init__.py:2346-2379 | the `while` loop over `goodresults`, `goodresultsflat`, `aufresults` and `zuresults` returns what `lilen` rounds of the scan return |
| Elements.ParseElements | __init__.py:2342-2416 | the method returns the specification: the records of the committed pairs, or IndexError |
| Elements.ParseElementsSpec | __init__.py:2342-2416 | what `parse_elements` returns: the records of the committed pairs, or IndexError; stated in `Elements.ElementsSound` |
| Elements.FlatFacts | __init__.py:2373-2375 | `goodresultsflat` holds exactly the used positions, and every entry of `aufresults` and `zuresults` is in it |
| Elements.MatchedPairs | __init__.py:2342-2379 | the committed pairs lie in the text, have distinct opens, and are each balanced between the two symbols |
| Elements.RoundCountIsCount | __init__.py:2350 | `lilen` is `min(text.count(symb1), text.count(symb2))` |
| Elements.RecordOfPair | __init__.py:2381-2411 | each record starts at `symb1`, ends at `symb2`, has key `range(start, end + 1)`, `size == end - start`, `text == text[start:end+1]` and a balanced text |
| Elements.ElementsSound | __init__.py:2342-2416 | on success: `min` of the two counts records, in ascending (size, start, end) order, with distinct keys, each well formed and balanced, and their (start, end) spans are exactly the committed pairs, counted with multiplicity |
| Hierarchy.LexLeRefl | __init__.py:2381 | Python's list comparison is reflexive |
| Hierarchy.LexLeTotal | __init__.py:2381 | any two lists are comparable |
| Hierarchy.LexLeTrans | __init__.py:2381 | list comparison is transitive |
| Hierarchy.Insert | __init__.py:2381 | inserting adds exactly one element |
| Hierarchy.SortBy | __init__.py:2381-2413 | `sorted(xs, key=...)` is a permutation of `xs` |
| Hierarchy.InsertSorted | __init__.py:2381 | inserting into a sorted list keeps it sorted |
| Hierarchy.SortBySorted | __init__.py:2381-2413 | `sorted(xs, key=...)` returns its elements in ascending key order |
| Hierarchy.InsertWithKey | __init__.py:2381 | inserting keeps the relative order of the elements that share a key |
| Hierarchy.SortByStable | __init__.py:2412-2413 | `sorted` is stable: the elements with one key keep their input order |
| Hierarchy.SortByDistinct | __init__.py:2381 | sorting keeps elements that were distinct distinct |
| Hierarchy.CoveredStrictSubset | __init__.py:2383-2402 | one covered set is a strict subset of another exactly when its span lies inside the other and differs from it |
| Hierarchy.RelatedKeys | __init__.py:2387-2404 | `asstring` holds exactly the keys of the other spans related to span `i` |
| Hierarchy.RowSorted | __init__.py:2381 | `allsorted`: the committed pairs sorted by (size, start, end); stated in `Hierarchy.RecordsInRowOrder` |
| Hierarchy.MakeRecord | __init__.py:2381-2413 | the record of the `i`th span of `allsorted`: size, start, end, text, key, parents and children; stated in `Hierarchy.RecordShape` |
| Hierarchy.BuildRecords | __init__.py:2381-2416 | one record per committed pair |
| Hierarchy.ToDict | __init__.py:2406-2416 | the returned dict's keys are the records' keys |
| Hierarchy.RowSortedSpans | __init__.py:2381 | sorting keeps every span within the text |
| Hierarchy.RecordShape | __init__.py:2381-2411 | each record's key, size and text as the source builds them |
| Hierarchy.RecordsInRowOrder | __init__.py:2381 | `allsorted` is a permutation of `goodresults` and the records are in ascending (size, start, end) order |
| Hierarchy.RecordSpans | __init__.py:2381-2416 | the records carry the committed spans in row order, so the (start, end) pairs of the records are the committed pairs, counted with multiplicity |
| Hierarchy.SpanChoice | __init__.py:2381-2411 | each record's span is a committed pair inside the text, with text `text[start:end+1]` and key `range(start, end + 1)` |
| Hierarchy.PairRecorded | __init__.py:2381-2416 | each committed pair gives a record with its start and end |
| Hierarchy.RecordEnclosure | __init__.py:2392-2402 | one record encloses another exactly when the other's covered set is a strict subset of its own |
| Hierarchy.ParentsExact | __init__.py:2387-2412 | a record's `parents` are exactly the keys of the other records that enclose it |
| Hierarchy.ChildrenExact | __init__.py:2396-2413 | a record's `children` are exactly the keys of the other records it encloses |
| Hierarchy.EnclosingPairHasChild | __init__.py:2396-2404 | a committed pair that strictly encloses another gives a record with a non-empty `children` |
| Hierarchy.ParentsOrder | __init__.py:2387-2412 | `parents` are sorted by ascending length, and keys of equal length keep their scan order |
| Hierarchy.ChildrenOrder | __init__.py:2396-2413 | `children` are sorted by descending length, and keys of equal length keep their scan order |
| Hierarchy.KeysDistinct | __init__.py:2381-2407 | no two records share a key, so the dict loses none |
| Hierarchy.ParentsChildrenDual | __init__.py:2387-2404 | B is among A's parents exactly when A is among B's children |
| Hierarchy.ToDictLookup | __init__.py:2406-2416 | the dict maps each record's key to that record |
| MultiLetters.RestoreAppend | __init__.py:2437-2438 | reading the working text back distributes over concatenation |
| MultiLetters.RestorePlain | __init__.py:2437-2438 | text without placeholders reads back as itself |
| MultiLetters.Replace | __init__.py:2437-2438 | `s.replace(pat, put)`: non-overlapping occurrences, left to right, each replaced by `put`; stated in `MultiLetters.ReplaceChars` and `MultiLetters.ReplaceOpenRestores` |
| MultiLetters.Working | __init__.py:2437-2438 | the working text `text2`; read back it is the original (`MultiLetters.RoundTrip`) |
| MultiLetters.ReplaceChars | __init__.py:2437-2438 | `replace` introduces no character besides the placeholder |
| MultiLetters.ReplaceOpenRestores | __init__.py:2437 | replacing `symb1` by an absent character and reading it back gives the text again |
| MultiLetters.ReplaceCloseRestores | __init__.py:2438 | replacing `symb2` by a second absent character keeps what the working text reads back as |
| MultiLetters.RoundTrip | __init__.py:2436-2438 | the working text, read back, is the original text |
| MultiLetters.OriginIncreasing | __init__.py:2446-2452 | later positions of the working text map to strictly later positions of the original |
| MultiLetters.SpanRestored | __init__.py:2446 | a span of the working text, read back, is the original between the mapped positions |
| MultiLetters.TokenRestored | __init__.py:2446 | each character of the working text reads back as the original between its mapped position and the next |
| MultiLetters.AbsentMembers | __init__.py:2426 | the candidates kept are exactly the catalogue characters not in the text |
| MultiLetters.Absent | __init__.py:2422-2432 | the catalogue characters that do not occur in the text, in catalogue order |
| MultiLetters.Placeholders | __init__.py:2420-2436 | `startletter` and `endletter`, the first two absent candidates; stated in `MultiLetters.PlaceholdersChosen` |
| MultiLetters.PlaceholdersChosen | __init__.py:2420-2436 | both placeholders are catalogue characters absent from the text; the first is missing only when every candidate occurs; with no repeated candidate the two differ |
| MultiLetters.AbsentNoDuplicates | __init__.py:2422-2432 | a catalogue without repeats yields absent candidates without repeats |
| MultiLetters.PickPlaceholders | __init__.py:2420-2436 | the nested loops set `startletter` and `endletter` to the first two absent candidates |
| MultiLetters.ScanBlock | __init__.py:2423-2432 | one block's loop: the two placeholders found so far, stopping at the second |
| MultiLetters.AtOrAfterFirst | __init__.py:2451 | the filtered list is empty exactly when no start reaches `awv`, and otherwise begins with the least start that does |
| MultiLetters.OrigText | __init__.py:2446 | `origtext`: `symb1`, the record's text without its two placeholders, and `symb2` |
| MultiLetters.Relocation | __init__.py:2446-2452 | a relocated key is a valid index tuple one longer than `origtext` |
| MultiLetters.AtOrAfterFinds | __init__.py:2449-2451 | filtering `index_all`'s list finds the first start at or after `awv` |
| MultiLetters.FirstAtOrAfter | __init__.py:2449-2451 | a start is found exactly when `origtext` occurs at or after `awv` |
| MultiLetters.RelocationFinds | __init__.py:2446-2452 | the relocation is `range(i, i + len(origtext) + 1)` at the first start `i` at or after `key[0]`, or IndexError; the original holds `origtext` there |
| MultiLetters.LookupAsWritten | __init__.py:2444-2452 | a filled `lookupdict` has exactly the records' keys, each mapped to a valid index tuple |
| MultiLetters.LookupsMembers | __init__.py:2461-2462 | the looked-up parents and children are exactly the images of the original keys |
| MultiLetters.Relocated | __init__.py:2455-2463 | one `pe2` record: size, start, end and text from the new key, and parents and children looked up |
| MultiLetters.RelocatedAll | __init__.py:2454-2463 | one `pe2` record per record of the working text |
| MultiLetters.ToDictSnoc | __init__.py:2456 | storing one more record adds or overwrites exactly its key |
| MultiLetters.ParsedRecords | __init__.py:2441 | the records of the working text have distinct keys, exact parents and children, and run from the open placeholder to the close one |
| MultiLetters.AsWrittenOutcomes | __init__.py:2419-2464 | a missing placeholder and a failing `parse_elements` both give `{}`; the only error that escapes is the IndexError of the `lookupdict` loop |
| MultiLetters.MultiLettersAsWritten | __init__.py:2419-2464 | `parse_elements_multi_letters` as written; its outcomes are stated in `MultiLetters.AsWrittenOutcomes` and `MultiLetters.AsWrittenKeys` |
| MultiLetters.AsWrittenOk | __init__.py:2440-2464 | when no relocation raises, the adapter returns the `pe2` dict of the relocated records |
| MultiLetters.LookupValues | __init__.py:2444-2452 | when no relocation raises, `lookupdict` maps each record's key to that record's relocation |
| MultiLetters.RelocatedKeys | __init__.py:2453-2463 | the keys of `pe2` are the looked-up keys of the records |
| MultiLetters.AsWrittenKeys | __init__.py:2444-2464 | when no relocation raises, the keys of the returned dict are exactly the relocated spans, so records that relocate to one span leave one entry |
| MultiLetters.ParseElementsMultiLetters | __init__.py:2419-2464 | the method computes the adapter as written |
| MultiLetters.FillLookup | __init__.py:2444-2452 | the `lookupdict` loop returns the dict of relocations, or the first IndexError |
| MultiLetters.LookupEntry | __init__.py:2446-2452 | one iteration computes the record's relocation |
| MultiLetters.LookupSnoc | __init__.py:2444-2452 | one more record adds its relocation or raises |
| MultiLetters.LookupErrPrefix | __init__.py:2451 | one record that cannot be relocated makes the whole loop raise |
| MultiLetters.FillPe2 | __init__.py:2453-2463 | the `pe2` loop stores every relocated record under its relocated key, later ones overwriting earlier ones |
| MultiLetters.OriginOrder | __init__.py:2446-2452 | mapping positions back keeps their order and keeps distinct positions distinct |
| MultiLetters.LookupFixed | __init__.py:2452 | the corrected `lookupdict` has exactly the records' keys |
| MultiLetters.MultiLetters | __init__.py:2419-2464 | the corrected adapter never raises |
| MultiLetters.RelocatedFixed | __init__.py:2452-2463 | a corrected record starts and ends at the mapped positions of its placeholders, and its text runs from `symb1` to `symb2` |
| MultiLetters.FixedPlaced | __init__.py:2452-2460 | every corrected record is placed at its mapped span and delimited in the original |
| MultiLetters.FixedLinked | __init__.py:2455-2462 | every corrected record takes its key, parents and children from the lookup |
| MultiLetters.KeysKept | __init__.py:2452 | distinct spans of the working text map to distinct keys |
| MultiLetters.EnclosesKept | __init__.py:2461-2462 | one span encloses another in the working text exactly when it does after mapping back |
| MultiLetters.CarriedDistinct | __init__.py:2452-2456 | the corrected keys are distinct, so `pe2` loses no record |
| MultiLetters.CarriedHierarchy | __init__.py:2461-2462 | the mapped parents and children are exactly the enclosing and enclosed records in the original |
| MultiLetters.RelocationSound | __init__.py:2443-2463 | the corrected relocation keeps every record, with distinct keys, an exact hierarchy and delimited texts |
| MultiLetters.MultiLettersSound | __init__.py:2419-2464 | the corrected adapter: `pe2` has one record per record of the working text under its own key, with the hierarchy and delimiters `parse_elements` promises, in original coordinates; each record is the working-text record carried back through the substitution |
| MultiLetters.DistinctKeysCount | __init__.py:2456 | records with distinct keys give a dict with as many entries |
| Findings.NotOccurring | __init__.py:2449 | a string holding a character absent from the text never occurs in it |
| Findings.ForeignNotFound | __init__.py:2446-2451 | an `origtext` holding a placeholder cannot be relocated |
| Findings.PlaceholderInside | __init__.py:2446 | the interior of an enclosing record still holds a placeholder |
| Findings.LookupRaises | __init__.py:2444-2452 | one record that cannot be relocated makes the lookup raise |
| Findings.EnclosingNotFound | __init__.py:2446-2451 | a record enclosing another cannot be relocated |
| Findings.NestedRecordNotFound | __init__.py:2441-2451 | any record of the working text with a child cannot be relocated |
| Findings.NestingRaises | __init__.py:2419-2451 | as written, a nested element makes the adapter raise IndexError |
| Findings.NestedExample | __init__.py:2446-2451 | `<p><p>x</p></p>`: the outer element's relocation raises |
| Findings.NestedEndToEnd | __init__.py:2419-2451 | `parse_elements_multi_letters("<p>", "</p>", "<p><p>x</p></p>")`, with placeholders `a` and `b`, raises IndexError |
| Findings.SameTextCollides | __init__.py:2449-2452 | two records with the same text, the second starting no later than where the first is found, relocate to the same key |
| Findings.SearchLater | __init__.py:2449-2451 | filtering `index_all`'s list from a later `awv`, not past the first start kept from the earlier one, gives the same relocation |
| Findings.FindFromLater | __init__.py:2334 | `l[from:].index(n)` from a later `from`, not past the first start found from the earlier one, finds that same start |
| Findings.FindFromSkip | __init__.py:2334 | the search finds the first start when none lies before it |
| Findings.KeysRepeat | __init__.py:2456 | a repeated key leaves fewer distinct keys than records |
| Findings.KeysAtMost | __init__.py:2456 | there are never more distinct keys than records |
| Findings.CollisionLoses | __init__.py:2452-2463 | as written, two records relocated to one key leave `pe2` with fewer records than `parse_elements` found |
| Findings.RepeatedExample | __init__.py:2446-2452 | `<p>x</p><p>x</p><p>x</p>`: the second and third elements both relocate to the second copy |
| Findings.RepeatedEndToEnd | __init__.py:2419-2464 | `parse_elements_multi_letters("<p>", "</p>", "<p>x</p><p>x</p><p>x</p>")`, with placeholders `a` and `b`, returns a dict of two records for three elements |
| Findings.ReplaceSkip | __init__.py:2437 | `replace` leaves unchanged a stretch in which no occurrence of the pattern starts |
| Multipairs.Adapt | __init__.py:2489-2491 | the adapter call for one pair: the one the code makes, or the corrected one |
| Multipairs.Collect | __init__.py:2485-2494 | the `results` dict after the loop, for any adapter |
| Multipairs.Multipairs | __init__.py:2485-2494 | `parse_multipairs` with the chosen adapter |
| Multipairs.CollectExact | __init__.py:2485-2494 | the loop keeps exactly the pairs whose call returns, each with that call's result; a pair whose call raises is absent |
| Multipairs.MultipairsExact | __init__.py:2485-2494 | a pair is in the result exactly when it is given and its adapter call returns, and it maps to that result |
| Multipairs.CorrectedKeepsAll | __init__.py:2485-2494 | with the corrected adapter, which never raises, every given pair is in the result |
| Multipairs.CollectStep | __init__.py:2487-2493 | one iteration stores the pair's result, or skips the pair when the call raises |
| Multipairs.CallAdapter | __init__.py:2489-2491 | one adapter call computes `Adapt` for the pair |
| Multipairs.ParseMultipairs | __init__.py:2485-2494 | the loop as written, with either adapter, computes `Multipairs` |

## Left out

- `unicode_dict` (the Unicode block table) is not part of this model. The
  placeholder search takes the table as a parameter: a sequence of blocks,
  each the sequence of its characters in table order.
- The `UnicodeEncodeError` branch of the placeholder search is not modelled.
  The catalogue holds only characters that can be formed.
- `print_all_unicode_chars` is console output and is not part of this model.
- `parse_elements_regex` needs Python's regular-expression engine and is not
  part of this model.
- The `parse_pairs` argument dispatch is not part of this model.
- `deepcopy` has no counterpart: the model works on values, so no copy is
  needed.
- The `oldlen`/`newlen` guard (`__init__.py:2376-2379`) is not modelled. It
  cannot fire, because each round either appends one pair or raises.
- Elements.ParseElements: takes one-character delimiters. With a longer one,
  `index_all(list(text), symb)` matches no element, and the source returns `{}`.
- IndexAll.IndexAll: requires a non-empty needle. Over a string, Python's
  `"".index("")` would make the source loop forever.
- MultiLetters.ParseElementsMultiLetters: requires non-empty delimiters. Python's
  `replace` with an empty pattern inserts the placeholder between every
  character, which the model does not follow.
- MultiLetters.MultiLettersSound: proved for a catalogue that repeats no
  character and an open placeholder that does not occur in `symb2`.
  - Without the first condition, the two placeholders may coincide.
  - Without the second, replacing `symb2` can swallow an open placeholder.
- Multipairs.ParseMultipairs: requires non-empty delimiters in every pair, as
  MultiLetters.ParseElementsMultiLetters does.
- Set and tuple hashing are not modelled: keys are sequences of integers and
  dict order is sequence order.

## Findings

| source | as written | input that shows it | evidently intended | confidence | as-written member | corrected member |
|---|---|---|---|---|---|---|
| __init__.py:2446-2451 | `origtext` is `symb1 + item["text"][1:-1] + symb2`. For an element with another element inside, the interior still holds the inner element's placeholders, which do not occur in the text, so `[...][0]` raises IndexError. | `parse_elements_multi_letters("<p>", "</p>", "<p><p>x</p></p>")` | nested elements are found in original coordinates, as `parse_elements` finds them for single characters | not executed | Findings.NestingRaises, Findings.NestedExample, Findings.NestedEndToEnd | MultiLetters.MultiLettersSound |
| __init__.py:2449-2456 | Each span is relocated to the first copy of its text at or after its start in the working text. That start is smaller than its start in the original, so two equal elements can both land on one copy. They get one key, and `pe2` keeps one record for the two. | `parse_elements_multi_letters("<p>", "</p>", "<p>x</p><p>x</p><p>x</p>")` | one record per element, each at its own position | not executed | Findings.RepeatedExample, Findings.SameTextCollides, Findings.CollisionLoses, Findings.RepeatedEndToEnd | MultiLetters.MultiLettersSound |

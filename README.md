# IPA / X-SAMPA conversion, modelled in Dafny

`IPAtranslate.py` converts phonetic transcriptions between the
International Phonetic Alphabet (IPA) and X-SAMPA, its ASCII rendering. Its
core has three parts, and this project models all three.

- **Symbol tables.** Two literal dicts list the X-SAMPA symbols:
  `_xsampa2ipa` for phones and `_xdiacritics2ipa` for diacritics. In the
  literals every combining mark is written after a dotted circle
  (U+25CC), and the dict comprehensions strip that circle from each value.
  - `_xsampa_and_diac2ipa` is a copy of the phone table updated with every
    diacritic key prefixed by `_`.
  - `_ipa2xsampa` swaps the keys and values of the combined table. When
    several X-SAMPA symbols share an IPA value, the one written last wins.
- **Segmenter.** `translate_string(s, d)` is a dynamic program over a
  lattice of `len(s)+1` cells, followed by a back-trace.
  - Each cell is first seeded with `s[n-1]` passed through, at cost 10.
  - A key of `d` ending at that cell, of length 1 up to the longest key,
    costs 1. It replaces the cell only if strictly cheaper, and lengths are
    tried shortest first.
  - The back-trace follows the origins to return the tokens and a parallel
    list of translated flags.
- **Adapters.** `xsampa2ipa` and `ipa2xsampa` pick a table, run the
  segmenter and join the tokens. Their `language` argument is never read.
  `translateStr` picks the direction by the name `'ipa'` or `'xsampa'`.

How the model is laid out:

- `pydict.dfy` (`PyDict`) models a Python dict as its list of items in
  insertion order. `d[k] = v` is `Put`, a literal or comprehension is
  `FromPairs`, `update` is `PutAll`, and `{v: k ...}` is `Invert`. `ToMap`
  gives the mapping a list of items denotes.
- `literals.dfy` (`XsampaLiterals`) holds the two literals exactly as
  written. They are split into runs of about 26 source lines so that facts
  about one run stay cheap to check.
- `symbols.dfy` (`SymbolTables`) builds the four tables from the literals
  the way the source does, and proves what they contain.
- `segmenter.dfy` (`Segmenter`) states the lattice and the back-trace as
  functions on values. It proves coverage, optimality and the tie-break
  about them. The methods `FillLattice`, `BackTrace` and `TranslateString`
  compute the same result the source's way: in an array, with nested
  loops and a `while` loop over the origins.
- `cost_order.dfy` (`CostOrder`) relates the costs to the docstring's
  promise of "fewest untranslatable symbols, then fewest symbols".
- `cases.dfy` (`SegmenterCases`) covers particular shapes of input: an
  input that is a key, an input with no key in it, a tie, and an input
  where the docstring's order fails.
- `adapters.dfy` (`Adapters`) holds the three entry points.

The docstring's order holds only as far as the costs 1 and 10 give it:
- `CostOrder.FewestPassthroughs`: the result can have more untranslated
  characters than another segmentation only when that other segmentation
  uses at least ten more translated spans.
- `CostOrder.ShortInputsLexicographic`: so the order always holds for
  inputs shorter than ten characters.
- `SegmenterCases.LongInputKeepsPassthrough`: a 13-character input over a
  three-key table where the result keeps an untranslated character,
  although a fully translated segmentation exists.
  - This is not a defect of the code, because the costs are what the code
    means. It is recorded as a limit of the docstring.
  - Whether the real tables admit such an input is not established here:
    their longest key has 4 characters.

Python's `max` raises on an empty table. `Segmenter.TranslateString`
therefore requires a non-empty table, and `Adapters.TablesNonEmpty` shows
that both real tables qualify.

## Model

| member | source | states |
|---|---|---|
| PyDict.Put | IPAtranslate.py:219-220 | `d[k] = v`: the mapping is updated at `k` only; an existing key keeps its place, a new key is appended at the end; keys stay unique |
| PyDict.PutAll | IPAtranslate.py:219-220 | `update`: the mapping is the old one overridden by the new pairs, the keys are the union, uniqueness is kept |
| PyDict.PutAllFresh | IPAtranslate.py:219-220 | updating with distinct keys none of which is present appends them in order |
| PyDict.FromPairs | IPAtranslate.py:24-25 | a dict literal or comprehension denotes the same mapping as its pairs, has unique keys, and keeps the pairs unchanged when their keys are already distinct |
| PyDict.OverwriteToMap | IPAtranslate.py:219-220 | overwriting the value of a key changes the mapping at that key only, and only if it is present |
| PyDict.ToMapAppend | IPAtranslate.py:24-159 | a literal written in consecutive runs denotes the runs' mappings, each overriding the ones before |
| PyDict.LookupLast | IPAtranslate.py:222 | the last pair written for a key decides its value |
| PyDict.LastWithValue | IPAtranslate.py:222 | the index of the last item holding a value: it holds the value and no later item does |
| PyDict.Inversion | IPAtranslate.py:222 | inverting a dict: its keys are exactly the dict's values, each maps to a key holding that value, and that key is the last such in iteration order |
| PyDict.InvertedKeys | IPAtranslate.py:222 | the keys of an inverted dict are exactly the values of the dict |
| PyDict.InvertedEntry | IPAtranslate.py:222 | a value of a dict maps back to the key of the last item holding it, and that key maps forward to the value |
| PyDict.Invert | IPAtranslate.py:222 | `{v: k for (k, v) in d.items()}`: a dict with unique keys, and its keys are exactly the values of `d` |
| XsampaLiterals.BaseLiteral | IPAtranslate.py:26-157 | the literal of `_xsampa2ipa`, one pair per source line, 132 pairs |
| XsampaLiterals.DiacriticLiteral | IPAtranslate.py:165-214 | the literal of `_xdiacritics2ipa`, one pair per source line, 50 pairs |
| SymbolTables.Strip | IPAtranslate.py:25 | `re.sub('◌', '', v)`: no placeholder remains, every other character is kept with its count, and a value without a placeholder is unchanged |
| SymbolTables.StripChar | IPAtranslate.py:25 | one character: the placeholder is removed, any other character is kept |
| SymbolTables.StripAppend | IPAtranslate.py:25 | stripping a concatenation concatenates the stripped parts, so the kept characters stay in their order |
| SymbolTables.StripValues | IPAtranslate.py:24-25 | the comprehension `{k: re.sub('◌', '', v) for (k, v) in {<lit>}.items()}`: unique keys, exactly the literal's keys |
| SymbolTables.PrefixKeys | IPAtranslate.py:220 | the comprehension `{('_' + k): v for (k, v) in d.items()}`: unique keys, each starting with `_` |
| SymbolTables.XsampaToIpa | IPAtranslate.py:24-159 | `_xsampa2ipa`, the stripping comprehension over the phone literal; its contents are stated by `StripValuesMap` and `CombinedTable` |
| SymbolTables.DiacriticsToIpa | IPAtranslate.py:163-216 | `_xdiacritics2ipa`, the stripping comprehension over the diacritic literal; its contents are stated by `StripValuesMap` and `CombinedTable` |
| SymbolTables.Combined | IPAtranslate.py:219-220 | a copy of the stripped phone table updated with the prefixed, stripped diacritics: unique keys, and as a mapping the phone table overridden by the prefixed diacritics |
| SymbolTables.XsampaAndDiacToIpa | IPAtranslate.py:219-220 | `_xsampa_and_diac2ipa`, `Combined` of the two literals; its contents are stated by `CombinedTable` |
| SymbolTables.IpaToXsampa | IPAtranslate.py:222 | `_ipa2xsampa`, the inversion of the combined table; its contents are stated by `ReverseTable` |
| SymbolTables.StripPairsToMap | IPAtranslate.py:25 | stripping the values of a list of pairs strips each value of the mapping and keeps its keys |
| SymbolTables.StripValuesMap | IPAtranslate.py:24-25 | a table built by the stripping comprehension has its literal's keys, each value is the literal's value stripped, and no value holds a placeholder |
| SymbolTables.PrefixPairsToMap | IPAtranslate.py:220 | prefixing keys with `_`: `k` is a key of the source exactly when `'_' + k` is a key of the result, with the same value; every result key starts with `_` |
| SymbolTables.KeptBaseEntry | IPAtranslate.py:219-220 | a base key not starting with `_` keeps its stripped base value in the combined table: no prefixed diacritic shadows it |
| SymbolTables.PrefixedEntry | IPAtranslate.py:220 | every diacritic `k` is a key `'_' + k` of the combined table, with the diacritic's stripped value |
| SymbolTables.CombinedKeys | IPAtranslate.py:219-220 | every key of the combined table is a base key or `_` followed by a diacritic key |
| SymbolTables.CombinedValues | IPAtranslate.py:219-220 | no value of the combined table holds the placeholder |
| SymbolTables.Combination | IPAtranslate.py:219-220 | for any base literal with no key starting with `_`: every base entry is kept, each diacritic `k` appears as `'_' + k` with its stripped value, there is nothing else, and no value holds a placeholder |
| SymbolTables.BaseKeysPlain | IPAtranslate.py:26-157 | no key of the phone literal starts with `_` |
| SymbolTables.CombinedTableOf | IPAtranslate.py:219-220 | for any two literals whose phone keys do not start with `_`: the combined table keeps every phone entry, adds `'_' + k` for every diacritic with its value, has nothing else, and no value holds the placeholder |
| SymbolTables.CombinedTable | IPAtranslate.py:24-220 | the real combined table keeps every phone entry, adds `'_' + k` for every diacritic with its value, has nothing else, and no value of the three tables holds the placeholder |
| SymbolTables.ReverseTable | IPAtranslate.py:222 | the reverse table's keys are the combined table's values, `combined[inverse[v]] == v`, and `inverse[v]` is the last key written with value `v` |
| SymbolTables.BaseBilabial | IPAtranslate.py:56-57 | the phone literal maps `p` to `p` and `p\` to `ɸ` |
| SymbolTables.BilabialEntries | IPAtranslate.py:56-57 | the combined table maps `p` to `p` and `p\` to `ɸ` |
| SymbolTables.LastOfEachValue | IPAtranslate.py:222 | for seven entries whose values collide as those of lines 27, 71, 107, 127, 145, 146 and 170 do, inversion has the three values as keys, each mapped to the last key written with it |
| SymbolTables.LastKeyWins | IPAtranslate.py:222 | on three of the nine groups of colliding entries (lines 27 and 170, 71 and 107, 127, 145 and 146), written out in table order, inversion maps `ʋ` to `P`, the empty string to `/` and U+0329 to `_=`, and nothing else |
| Segmenter.Reversed | IPAtranslate.py:254 | `xs[::-1]`: same length, element i is element len-1-i |
| Segmenter.Relax | IPAtranslate.py:243-245 | the inner loop over span lengths never raises the cell's cost; `RelaxFacts` states which candidate it keeps |
| Segmenter.Lattice | IPAtranslate.py:238-245 | cells 0..n of the lattice: n+1 cells, cell 0 the base case `(0, 0, '', True)`; `CellFacts` states what the others hold |
| Segmenter.Cells | IPAtranslate.py:238-245 | the full lattice: one cell per input position plus cell 0, the base case |
| Segmenter.Tokens | IPAtranslate.py:247-254 | the token list `tl`: one token per span of the back-trace |
| Segmenter.Flags | IPAtranslate.py:247-254 | the flag list `ttf`: one flag per span of the back-trace |
| Segmenter.RelaxFacts | IPAtranslate.py:243-245 | the inner loop keeps the first candidate of minimum cost in the order tried: no key candidate is cheaper, and every key tried before it is strictly dearer |
| Segmenter.RelaxNoKeys | IPAtranslate.py:236-243 | lengths with no key leave a cell unchanged, so stopping at the longest key loses nothing |
| Segmenter.SeededRelax | IPAtranslate.py:241-245 | the inner loop started from the seed `s[n-1]` yields the seed or a key's translation, no candidate is cheaper, and a translation is strictly cheaper than every candidate tried before it |
| Segmenter.LatticePrefix | IPAtranslate.py:238-245 | cell k does not depend on later cells |
| Segmenter.CellFacts | IPAtranslate.py:241-245 | each cell's origin is before it; an untranslated cell holds `s[n-1]` at cost 10 more than cell n-1; a translated cell holds `d[s[o:n]]` for a key at cost 1 more than cell o; no candidate is cheaper; among equally cheap ones the seed, then the shortest key, wins |
| Segmenter.LatticeLinked | IPAtranslate.py:241-245 | every origin lies strictly before its cell, so the back-trace ends |
| Segmenter.CutsShape | IPAtranslate.py:249-253 | the positions the back-trace visits run from 0 up to n, strictly increasing, each the origin of the next |
| Segmenter.TraceTiles | IPAtranslate.py:241-254 | the spans tile `[0, len(s))` with no gap or overlap, both lists have one entry per span, an entry flagged false is the input character itself and one flagged true is the table's value for a key |
| Segmenter.TraceCostAt | IPAtranslate.py:249-253 | the path the back-trace follows costs what its final cell holds |
| Segmenter.LatticeCostsAdd | IPAtranslate.py:241-245 | each cell costs its origin's cost plus 1 when translated and 10 when passed through |
| Segmenter.TraceCost | IPAtranslate.py:234-254 | the segmentation the back-trace returns costs exactly the final cell's cost |
| Segmenter.LowerBound | IPAtranslate.py:238-245 | every segmentation of `s[:n]` into keys and single characters costs at least cell n's cost |
| Segmenter.Optimal | IPAtranslate.py:234-254 | the result is a segmentation, its cost is the final cell's, and no segmentation of `s` costs less |
| Segmenter.MaxKeyLength | IPAtranslate.py:236 | `maxsym` bounds every key length and is attained by some key |
| Segmenter.FillLattice | IPAtranslate.py:238-245 | the array the nested loops fill is the lattice |
| Segmenter.ImproveCell | IPAtranslate.py:243-245 | given cells 0..n-1 of the lattice and the seed in cell n, the inner loop leaves cells 0..n equal to the lattice's |
| Segmenter.TraceCollected | IPAtranslate.py:247-254 | the tokens and flags the back-trace collects from the last cell down, once reversed, are those of the cut positions in input order |
| Segmenter.BackTrace | IPAtranslate.py:247-254 | the `while` loop and the reversal return the tokens and flags along the origins, in input order |
| Segmenter.TranslateString | IPAtranslate.py:226-254 | `translate_string` returns the back-trace's tokens and flags; the lists have equal length; an empty input gives two empty lists |
| CostOrder.PathCostCounts | IPAtranslate.py:234-235 | a path costs 1 per translated span plus 10 per untranslated character, and every span is one of the two |
| CostOrder.SpansAtMostLength | IPAtranslate.py:241-245 | a segmentation has at most as many spans as characters |
| CostOrder.FewestPassthroughs | IPAtranslate.py:228-229 | the result has more untranslated characters than another segmentation only if that one has at least ten more translated spans, and with equally many it has no more spans |
| CostOrder.ShortInputsLexicographic | IPAtranslate.py:228-229 | below ten characters the result has the fewest untranslated characters, then the fewest spans |
| SegmenterCases.WholeKey | IPAtranslate.py:241-254 | an input that is a key comes back as that key's value, one translated token |
| SegmenterCases.NoKeys | IPAtranslate.py:241 | an input with no key in it comes back one character per token, every flag false |
| SegmenterCases.CellsCostPositive | IPAtranslate.py:241-245 | every cell after cell 0 costs at least 1 |
| SegmenterCases.OneSpan | IPAtranslate.py:249-254 | a last cell whose origin is cell 0 gives one token and one flag, its own |
| SegmenterCases.ShorterLastKeyWins | IPAtranslate.py:243-245 | on any three characters where the first two, the last two, the first and the last are keys but the middle and the whole are not, the tie between `s[0:2]` then `s[2]` and `s[0]` then `s[1:3]` (both cost 2) goes to the first, whose last key is shorter |
| SegmenterCases.TieExample | IPAtranslate.py:243-245 | on `abc` with keys `ab`, `c`, `a`, `bc` the tokens are those of `ab` and `c` |
| SegmenterCases.LongLastCell | IPAtranslate.py:243-245 | on thirteen characters where the first two, any single one after the first, and the last twelve are the only keys, the last cell translates the last twelve from cell 1 at cost 11 |
| SegmenterCases.LongFullyTranslatable | IPAtranslate.py:228-229 | the same input has a segmentation with no untranslated character, at cost 12 |
| SegmenterCases.LongKeepsPassthrough | IPAtranslate.py:228-229 | yet the result passes the first character through and translates the other twelve as one key |
| SegmenterCases.LongInputShape | IPAtranslate.py:243-245 | `a` followed by twelve `b`s over the keys `ab`, `b` and twelve `b`s has that shape |
| SegmenterCases.LongInputKeepsPassthrough | IPAtranslate.py:228-229 | on that input the result passes the `a` through although a fully translated segmentation exists, against the docstring's order |
| Adapters.Join | IPAtranslate.py:260 | `''.join(tl)`, base cases: no tokens join to the empty string, one token to itself; `JoinAppend` and `JoinCharacters` state the rest |
| Adapters.JoinAppend | IPAtranslate.py:260 | joining two token lists in a row concatenates their joins |
| Adapters.TablesNonEmpty | IPAtranslate.py:236 | both tables the adapters pass to the segmenter have a key |
| Adapters.XsampaToIpaPhone | IPAtranslate.py:262-265 | `xsampa2ipa` returns the join of the segmenter's tokens over the combined table, whatever the `language` |
| Adapters.IpaToXsampaPhone | IPAtranslate.py:257-260 | `ipa2xsampa` returns the join of the segmenter's tokens over the reverse table, whatever the `language` |
| Adapters.TranslateStr | IPAtranslate.py:340-344 | `'ipa'` gives `xsampa2ipa`, `'xsampa'` gives `ipa2xsampa`, any other direction gives `None` |
| Adapters.BilabialFricativeToIpa | IPAtranslate.py:57 | `xsampa2ipa('p\\')` is `ɸ`, a single translated token |
| Adapters.JoinCharacters | IPAtranslate.py:260 | joining the one-character tokens of a string gives the string back |
| Adapters.UntranslatableUnchanged | IPAtranslate.py:241 | a string containing no key comes back unchanged, every flag false |

## Left out

- `translateFiles` and `translateFile` (IPAtranslate.py:275-337) are left out. They are console prompts, directory changes, and file reading and writing.
- `_xsampa_vowels` (IPAtranslate.py:161) is left out. It is a set built and never read by the converter.
- The other scripts of the repository are not part of this model. They hold spreadsheet and file I/O, directory walking, and regular-expression clean-up lists.
- SymbolTables.LastKeyWins: the last-key-wins rule is checked on a hand-written list holding three of the nine groups of colliding entries (the other six pair a phone symbol with its `_` diacritic form, or two diacritics), not on `_ipa2xsampa` itself. Naming the winner in the real table needs the item order of the 182 entries, and so a proof that the 132 phone keys are pairwise distinct, which is too costly for the verifier here. For the full table, `ReverseTable` proves the rule in general through `LastWithValue`.
- SymbolTables.BilabialEntries: concrete lookups are proved for `p` and `p\` only. The other entries follow from `CombinedTable` once their literal pairs are looked up the same way.
- Python's exception on an empty table (`max` of no keys) is modelled as the precondition of `Segmenter.TranslateString` and `Segmenter.MaxKeyLength`. It is not an error result.
- Python strings are modelled as sequences of Unicode code points. There is no normalisation, and the `◌` removal matches the single code point U+25CC, as the regular expression does.

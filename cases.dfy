/** Behaviour of `translate_string` on shapes of input that the conversion
    tables meet: an input that is itself a key, an input with no key in it,
    two segmentations of equal cost, and an input where the costs prefer an
    untranslated character to more translated spans. */
module SegmenterCases {
  import opened Segmenter
  import opened CostOrder

  /** Every cell after the first costs at least one. */
  lemma CellsCostPositive(s: string, d: map<string, string>, n: nat)
    requires 1 <= n <= |s|
    ensures Cells(s, d)[n].cost >= SymCost
  {
    CellFacts(s, d, n);
  }

  /** The back-trace of a lattice whose last cell comes straight from cell 0
      has one span. */
  lemma OneSpan(cells: seq<Cell>, n: nat)
    requires 0 < n < |cells| && Linked(cells) && cells[n].origin == 0
    ensures Cuts(cells, n) == [0, n]
    ensures TokensTo(cells, n) == [cells[n].token] && FlagsTo(cells, n) == [cells[n].translated]
  {
    assert Cuts(cells, n) == Cuts(cells, 0) + [n];
  }

  /** An input that is a key is translated as one token, whatever else the
      table holds: `xsampa2ipa('p\\')` is the single translated token `ɸ`. */
  lemma WholeKey(s: string, d: map<string, string>)
    requires s in d && s != []
    ensures Tokens(s, d) == [d[s]] && Flags(s, d) == [true] && Spans(s, d) == [0, |s|]
  {
    var L := Cells(s, d);
    var n := |s|;
    LatticePrefix(s, d, n, 0);
    CellFacts(s, d, n);
    assert IsKeyAt(s, d, n, n) by { assert s[0..n] == s; }
    assert L[n].cost <= SymCost;
    assert L[n].translated;
    assert L[n].origin == 0 by {
      if L[n].origin > 0 {
        CellsCostPositive(s, d, L[n].origin);
      }
    }
    assert s[L[n].origin..n] == s;
    LatticeLinked(s, d);
    OneSpan(L, n);
  }

  /** Fallback: when no stretch of the input is a key, every character is
      passed through unchanged, one token each, all flagged false. */
  lemma NoKeys(s: string, d: map<string, string>)
    requires forall a, b :: 0 <= a < b <= |s| ==> s[a..b] !in d
    ensures Tokens(s, d) == seq(|s|, i requires 0 <= i < |s| => [s[i]])
    ensures Flags(s, d) == seq(|s|, i requires 0 <= i < |s| => false)
  {
    TraceTiles(s, d);
    var cuts, tl, ttf := Spans(s, d), Tokens(s, d), Flags(s, d);
    var i := 0;
    while i < |ttf|
      invariant i <= |ttf| && cuts[i] == i
      invariant forall j :: 0 <= j < i ==> !ttf[j] && tl[j] == [s[j]]
    {
      assert SpanOk(s, d, cuts[i], cuts[i + 1], ttf[i]);
      assert s[cuts[i]..cuts[i + 1]] !in d;
      assert !ttf[i] && cuts[i + 1] == i + 1;
      assert tl[i] == [s[i]];
      i := i + 1;
    }
  }

  /** A three-character input whose first two and last two characters are
      keys, as are its first and last characters, while its middle
      character and the whole input are not. */
  ghost predicate TieShape(s: string, d: map<string, string>)
  {
    && |s| == 3
    && s[0..1] in d && s[0..2] in d && s[2..3] in d && s[1..3] in d
    && s[1..2] !in d && s !in d
  }

  /** Cells 1 and 2 of such an input: the first character translated at
      cost 1, then the first two translated straight from cell 0 at cost 1. */
  lemma TieCells12(s: string, d: map<string, string>)
    requires TieShape(s, d)
    ensures var L := Cells(s, d);
      L[1].cost == 1 && L[2] == Cell(1, 0, d[s[0..2]], true)
  {
    var L := Cells(s, d);
    LatticePrefix(s, d, 3, 0);
    CellFacts(s, d, 1);
    assert IsKeyAt(s, d, 1, 1);
    CellFacts(s, d, 2);
    assert IsKeyAt(s, d, 2, 2) && !IsKeyAt(s, d, 2, 1);
  }

  /** Cell 3 of such an input: the last character from cell 2 and the last
      two from cell 1 both cost 2, and the shorter key, tried first, is
      kept. */
  lemma TieCell3(s: string, d: map<string, string>)
    requires TieShape(s, d)
    ensures Cells(s, d)[3] == Cell(2, 2, d[s[2..3]], true)
  {
    var L := Cells(s, d);
    TieCells12(s, d);
    CellFacts(s, d, 3);
    assert IsKeyAt(s, d, 3, 1) && IsKeyAt(s, d, 3, 2);
    assert !IsKeyAt(s, d, 3, 3) by { assert s[0..3] == s; }
    assert L[3].origin == 2;
  }

  /** Tie-break, for any input of that shape: `s[0:2] | s[2]` and
      `s[0] | s[1:3]` cost the same, the cell at 3 keeps the shorter last
      key, so the result is `s[0:2] | s[2]`. */
  lemma ShorterLastKeyWins(s: string, d: map<string, string>)
    requires TieShape(s, d)
    ensures Tokens(s, d) == [d[s[0..2]], d[s[2..3]]] && Flags(s, d) == [true, true]
    ensures IsSegmentation(s, d, 3, [0, 1, 3], [true, true])
    ensures PathCost(Flags(s, d)) == PathCost([true, true])
  {
    var L := Cells(s, d);
    TieCells12(s, d);
    TieCell3(s, d);
    LatticeLinked(s, d);
    assert Cuts(L, 3) == Cuts(L, 2) + [3];
    assert Cuts(L, 2) == Cuts(L, 0) + [2];
    assert [true, true][..1] == [true];
  }

  /** On `abc` with keys `ab`, `c`, `a` and `bc`, the result is `ab|c`. */
  lemma TieExample()
    ensures Tokens("abc", map["ab" := "X", "c" := "Y", "a" := "P", "bc" := "Q"]) == ["X", "Y"]
  {
    var s, d := "abc", map["ab" := "X", "c" := "Y", "a" := "P", "bc" := "Q"];
    assert s[0..1] == "a" && s[0..2] == "ab" && s[2..3] == "c" && s[1..3] == "bc" && s[1..2] == "b";
    ShorterLastKeyWins(s, d);
  }

  /** Thirteen characters where the keys are: the first two together, any
      single character after the first, and the last twelve together. */
  ghost predicate LongShape(s: string, d: map<string, string>)
  {
    && |s| == 13
    && IsKeyAt(s, d, 2, 2) && IsKeyAt(s, d, 13, 12)
    && (forall n :: 2 <= n <= 13 ==> IsKeyAt(s, d, n, 1))
    && (forall n, m :: IsKeyAt(s, d, n, m) ==>
          (m == 1 && n >= 2) || (n == 2 && m == 2) || (n == 13 && m == 12))
  }

  /** Cell 1 passes the first character through. */
  lemma LongCell1(s: string, d: map<string, string>)
    requires LongShape(s, d)
    ensures var L := Cells(s, d); L[1].cost == OovCost && !L[1].translated
  {
    LatticePrefix(s, d, |s|, 0);
    CellFacts(s, d, 1);
  }

  /** Cells 2..12 cost n - 1: the first two characters as one key, then
      one key per character. */
  lemma {:induction false} LongPrefixCells(s: string, d: map<string, string>, n: nat)
    requires LongShape(s, d) && 2 <= n <= 12
    ensures Cells(s, d)[n].cost == n - 1
  {
    var L := Cells(s, d);
    CellFacts(s, d, n);
    if n == 2 {
      LatticePrefix(s, d, |s|, 0);
      assert IsKeyAt(s, d, 2, 2);
      CellsCostPositive(s, d, 2);
    } else {
      LongPrefixCells(s, d, n - 1);
      assert IsKeyAt(s, d, n, 1);
    }
  }

  /** Cell 13 translates the last twelve characters from cell 1, at cost
      11. */
  lemma LongLastCell(s: string, d: map<string, string>)
    requires LongShape(s, d)
    ensures Cells(s, d)[13] == Cell(11, 1, d[s[1..13]], true)
  {
    var L := Cells(s, d);
    LongCell1(s, d);
    LongPrefixCells(s, d, 12);
    CellFacts(s, d, 13);
    assert L[13].cost == 11;
  }

  /** The result keeps the first character untranslated and translates the
      other twelve as one key (cost 11). */
  lemma LongKeepsPassthrough(s: string, d: map<string, string>)
    requires LongShape(s, d)
    ensures Flags(s, d) == [false, true] && Tokens(s, d) == [[s[0]], d[s[1..13]]]
    ensures Passthroughs(Flags(s, d)) == 1
  {
    var L := Cells(s, d);
    LongLastCell(s, d);
    LongCell1(s, d);
    CellFacts(s, d, 1);
    LatticeLinked(s, d);
    assert Cuts(L, 13) == Cuts(L, 1) + [13];
    assert Cuts(L, 1) == Cuts(L, 0) + [1];
    assert [false, true][..1] == [false];
  }

  /** The first two characters as one key, then one key per character: a
      segmentation that translates everything (cost 12). */
  lemma LongFullyTranslatable(s: string, d: map<string, string>)
    requires LongShape(s, d)
    ensures var cuts := [0] + seq(12, i requires 0 <= i < 12 => i + 2);
      var flags := seq(12, i requires 0 <= i < 12 => true);
      && IsSegmentation(s, d, 13, cuts, flags)
      && Passthroughs(flags) == 0 && PathCost(flags) == 12
  {
    var cuts := [0] + seq(12, i requires 0 <= i < 12 => i + 2);
    var flags := seq(12, i requires 0 <= i < 12 => true);
    forall i | 0 <= i < 12 ensures SpanOk(s, d, cuts[i], cuts[i + 1], flags[i]) {
      if i > 0 {
        assert IsKeyAt(s, d, i + 2, 1);
      } else {
        assert IsKeyAt(s, d, 2, 2);
      }
    }
    PathCostCounts(flags);
    assert Translations(flags) == 12 && Passthroughs(flags) == 0 by {
      var k := 0;
      while k < 12
        invariant k <= 12 && Translations(flags[..k]) == k && Passthroughs(flags[..k]) == 0
      {
        assert flags[..k + 1][..k] == flags[..k];
        k := k + 1;
      }
      assert flags[..12] == flags;
    }
  }

  /** Twelve `b`s. */
  const Twelve: string := "bbbbbbbbbbbb"

  /** `a` followed by twelve `b`s. */
  const LongInput: string := "abbbbbbbbbbbb"

  /** A table with keys `ab`, `b` and twelve `b`s. */
  const LongTable: map<string, string> := map["ab" := "1", "b" := "2", Twelve := "3"]

  /** Where a key of `LongTable` can end in `LongInput`, and how long it
      is. */
  lemma LongInputKey(n: nat, m: nat)
    requires IsKeyAt(LongInput, LongTable, n, m)
    ensures (m == 1 && n >= 2) || (n == 2 && m == 2) || (n == 13 && m == 12)
  {
    var s := LongInput;
    var w := s[n - m..n];
    assert w[0] == s[n - m];
    assert s[0] == 'a' && forall i :: 1 <= i < 13 ==> s[i] == 'b';
    assert w in LongTable.Keys;
    assert LongTable.Keys == {"ab", "b", Twelve};
    if w == "ab" {
      assert m == 2 && s[n - 2] == 'a';
    } else if w == "b" {
      assert m == 1 && s[n - 1] == 'b';
    } else {
      assert w == Twelve && m == 12 && s[n - 12] == 'b';
    }
  }

  /** The keys of `LongTable` in `LongInput`: a `b` anywhere after the
      `a`, `ab` at the start, and the twelve `b`s after the `a`. */
  lemma LongInputShape()
    ensures LongShape(LongInput, LongTable)
  {
    var s, d := LongInput, LongTable;
    assert s[0..2] == "ab" && s[1..13] == Twelve;
    forall n | 2 <= n <= 13 ensures IsKeyAt(s, d, n, 1) {
      assert s[n - 1..n] == "b";
    }
    forall n: nat, m: nat | IsKeyAt(s, d, n, m)
      ensures (m == 1 && n >= 2) || (n == 2 && m == 2) || (n == 13 && m == 12)
    {
      LongInputKey(n, m);
    }
  }

  /** The docstring's order fails on `a` followed by twelve `b`s over
      `LongTable`: the result passes the `a` through (cost 11), although
      `ab` followed by eleven `b`s translates every character (cost 12). */
  lemma LongInputKeepsPassthrough()
    ensures Flags(LongInput, LongTable) == [false, true]
    ensures Tokens(LongInput, LongTable) == ["a", "3"]
    ensures var cuts := [0] + seq(12, i requires 0 <= i < 12 => i + 2);
      var flags := seq(12, i requires 0 <= i < 12 => true);
      && IsSegmentation(LongInput, LongTable, 13, cuts, flags)
      && Passthroughs(flags) == 0 < Passthroughs(Flags(LongInput, LongTable))
  {
    LongInputShape();
    LongKeepsPassthrough(LongInput, LongTable);
    LongFullyTranslatable(LongInput, LongTable);
    assert LongInput[1..13] == Twelve;
    assert [LongInput[0]] == "a";
  }
}

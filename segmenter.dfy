/** `translate_string(s, d)` of IPAtranslate.py: a forward dynamic program
    over a lattice of |s|+1 cells that segments `s` into keys of the table
    `d` (path cost 1 each) and untranslatable single characters (path cost
    10 each), then a back-trace along the cells' origins.

    The functions below state the lattice and the back-trace as values; the
    method `TranslateString` computes them the way the source does, in an
    array, and is proved to agree with them.  The lemmas say what the result
    means: a tiling of the input, optimal cost, and the tie-break rule. */
module Segmenter {

  /** Path cost of a span translated through the table (`symcost`). */
  const SymCost: nat := 1
  /** Path cost of a character passed through untranslated (`oovcost`). */
  const OovCost: nat := 10

  /** A lattice cell `(pathcost, origin, translation, translated)`: the best
      path to this position comes from `origin` and emits `token`. */
  datatype Cell = Cell(cost: nat, origin: nat, token: string, translated: bool)

  /** Cell 0, the base case `(0, 0, '', True)`. */
  const Start := Cell(0, 0, "", true)

  function Min(a: int, b: int): int
  {
    if a < b then a else b
  }

  /** `s[n-m:n]` is a key of `d`, for a span length `m >= 1` that fits. */
  predicate IsKeyAt(s: string, d: map<string, string>, n: nat, m: nat)
  {
    1 <= m <= n <= |s| && s[n - m..n] in d
  }

  /** The first value of cell `n`: `s[n-1]` passed through untranslated. */
  function Seed(s: string, cells: seq<Cell>, n: nat): Cell
    requires 1 <= n <= |s| && |cells| == n
  {
    Cell(OovCost + cells[n - 1].cost, n - 1, s[n - 1..n], false)
  }

  /** The candidate for cell `n` that translates the key `s[n-m:n]`. */
  function KeyCell(s: string, d: map<string, string>, cells: seq<Cell>, n: nat, m: nat): Cell
    requires IsKeyAt(s, d, n, m) && |cells| == n
  {
    Cell(SymCost + cells[n - m].cost, n - m, d[s[n - m..n]], true)
  }

  /** The inner loop from span length `m` on: a key candidate replaces the
      best cell so far only when its cost is strictly lower. */
  function Relax(s: string, d: map<string, string>, cells: seq<Cell>, n: nat, m: nat, best: Cell): (r: Cell)
    requires 1 <= m <= n + 1 && n <= |s| && |cells| == n
    ensures r.cost <= best.cost
    decreases n + 1 - m
  {
    if m > n then best
    else if IsKeyAt(s, d, n, m) && SymCost + cells[n - m].cost < best.cost then
      Relax(s, d, cells, n, m + 1, KeyCell(s, d, cells, n, m))
    else
      Relax(s, d, cells, n, m + 1, best)
  }

  /** Cells 0..n of the lattice for `s` and `d`. */
  function Lattice(s: string, d: map<string, string>, n: nat): (cells: seq<Cell>)
    requires n <= |s|
    ensures |cells| == n + 1 && cells[0] == Start
  {
    if n == 0 then [Start]
    else
      var prev := Lattice(s, d, n - 1);
      prev + [Relax(s, d, prev, n, 1, Seed(s, prev, n))]
  }

  /** The full lattice. */
  function Cells(s: string, d: map<string, string>): (cells: seq<Cell>)
    ensures |cells| == |s| + 1 && cells[0] == Start
  {
    Lattice(s, d, |s|)
  }

  /** Every origin lies strictly before its cell, so the back-trace ends. */
  ghost predicate Linked(cells: seq<Cell>)
  {
    forall n :: 0 < n < |cells| ==> cells[n].origin < n
  }

  /** The positions the back-trace visits from cell `n`, in input order:
      0, then each cell whose origin is the one before, up to `n`. */
  function Cuts(cells: seq<Cell>, n: nat): seq<nat>
    requires n < |cells| && Linked(cells)
    decreases n
  {
    if n == 0 then [0] else Cuts(cells, cells[n].origin) + [n]
  }

  /** The tokens the back-trace collects from cell `n`, in input order. */
  function TokensTo(cells: seq<Cell>, n: nat): seq<string>
    requires n < |cells| && Linked(cells)
  {
    var cuts := Cuts(cells, n);
    CutsShape(cells, n);
    seq(|cuts| - 1, i requires 0 <= i < |cuts| - 1 => cells[cuts[i + 1]].token)
  }

  /** The translated flags the back-trace collects from cell `n`, in input order. */
  function FlagsTo(cells: seq<Cell>, n: nat): seq<bool>
    requires n < |cells| && Linked(cells)
  {
    var cuts := Cuts(cells, n);
    CutsShape(cells, n);
    seq(|cuts| - 1, i requires 0 <= i < |cuts| - 1 => cells[cuts[i + 1]].translated)
  }

  /** The token list `tl` of `translate_string(s, d)`. */
  function Tokens(s: string, d: map<string, string>): (tl: seq<string>)
    ensures |tl| == |Spans(s, d)| - 1
  {
    LatticeLinked(s, d);
    TokensTo(Cells(s, d), |s|)
  }

  /** The flag list `ttf` of `translate_string(s, d)`. */
  function Flags(s: string, d: map<string, string>): (ttf: seq<bool>)
    ensures |ttf| == |Spans(s, d)| - 1
  {
    LatticeLinked(s, d);
    FlagsTo(Cells(s, d), |s|)
  }

  /** The spans of the back-trace, as cut positions. */
  function Spans(s: string, d: map<string, string>): seq<nat>
  {
    LatticeLinked(s, d);
    Cuts(Cells(s, d), |s|)
  }

  /** `xs[::-1]`. */
  function Reversed<T>(xs: seq<T>): (r: seq<T>)
    ensures |r| == |xs|
    ensures forall i :: 0 <= i < |xs| ==> r[i] == xs[|xs| - 1 - i]
  {
    if xs == [] then [] else [xs[|xs| - 1]] + Reversed(xs[..|xs| - 1])
  }

  // ---------------------------------------------------------------------
  // The inner loop

  /** The inner loop's result is the first candidate, in the order tried
      (`best`, then the keys of length m, m+1, ..., n), whose cost is the
      minimum of all of them: no candidate is cheaper, the result is `best`
      or a key candidate strictly cheaper than `best`, and every key
      candidate tried before it is strictly dearer. */
  lemma {:induction false} RelaxFacts(s: string, d: map<string, string>, cells: seq<Cell>, n: nat, m: nat, best: Cell)
    requires 1 <= m <= n + 1 && n <= |s| && |cells| == n
    ensures var r := Relax(s, d, cells, n, m, best);
      && r.cost <= best.cost
      && (forall k :: m <= k && IsKeyAt(s, d, n, k) ==> r.cost <= SymCost + cells[n - k].cost)
      && (r == best ||
          (&& r.cost < best.cost
           && m <= n - r.origin
           && IsKeyAt(s, d, n, n - r.origin)
           && r == KeyCell(s, d, cells, n, n - r.origin)
           && forall k :: m <= k < n - r.origin && IsKeyAt(s, d, n, k) ==> r.cost < SymCost + cells[n - k].cost))
    decreases n + 1 - m
  {
    if m <= n {
      if IsKeyAt(s, d, n, m) && SymCost + cells[n - m].cost < best.cost {
        RelaxFacts(s, d, cells, n, m + 1, KeyCell(s, d, cells, n, m));
      } else {
        RelaxFacts(s, d, cells, n, m + 1, best);
      }
    }
  }

  /** Span lengths without a key leave the inner loop's result unchanged:
      the source stops at `maxsym`, the longest key, and loses nothing. */
  lemma {:induction false} RelaxNoKeys(s: string, d: map<string, string>, cells: seq<Cell>, n: nat, m: nat, best: Cell)
    requires 1 <= m <= n + 1 && n <= |s| && |cells| == n
    requires forall k :: m <= k <= n ==> !IsKeyAt(s, d, n, k)
    ensures Relax(s, d, cells, n, m, best) == best
    decreases n + 1 - m
  {
    if m <= n {
      RelaxNoKeys(s, d, cells, n, m + 1, best);
    }
  }

  // ---------------------------------------------------------------------
  // The lattice

  /** A longer lattice extends a shorter one: cell k depends on s[..k] only
      through the cells before it. */
  lemma {:induction false} LatticePrefix(s: string, d: map<string, string>, n: nat, k: nat)
    requires k <= n <= |s|
    ensures Lattice(s, d, n)[..k + 1] == Lattice(s, d, k)
    decreases n
  {
    if k < n {
      LatticePrefix(s, d, n - 1, k);
      assert Lattice(s, d, n)[..n] == Lattice(s, d, n - 1);
      assert Lattice(s, d, n)[..k + 1] == Lattice(s, d, n)[..n][..k + 1];
    }
  }

  /** The inner loop seeded with `s[n-1]` passed through yields either that
      pass-through or the translation of a key `s[o:n]`; no candidate is
      cheaper; and a translation is strictly cheaper than every candidate
      tried before it (tie-break by strict `<`). */
  lemma {:induction false} SeededRelax(s: string, d: map<string, string>, cells: seq<Cell>, n: nat)
    requires 1 <= n <= |s| && |cells| == n
    ensures var c := Relax(s, d, cells, n, 1, Seed(s, cells, n));
      && c.origin < n
      && (!c.translated ==>
            c.origin == n - 1 && c.token == [s[n - 1]] && c.cost == OovCost + cells[n - 1].cost)
      && (c.translated ==>
            IsKeyAt(s, d, n, n - c.origin) && c.token == d[s[c.origin..n]]
            && c.cost == SymCost + cells[c.origin].cost)
      && c.cost <= OovCost + cells[n - 1].cost
      && (forall m :: IsKeyAt(s, d, n, m) ==> c.cost <= SymCost + cells[n - m].cost)
      && (c.translated ==>
            c.cost < OovCost + cells[n - 1].cost
            && forall m: nat :: m < n - c.origin && IsKeyAt(s, d, n, m) ==> c.cost < SymCost + cells[n - m].cost)
  {
    RelaxFacts(s, d, cells, n, 1, Seed(s, cells, n));
    assert s[n - 1..n] == [s[n - 1]];
  }

  /** What each cell of the lattice holds: the cell the seeded inner loop
      computes from the cells before it (see `SeededRelax`). */
  lemma {:induction false} CellFacts(s: string, d: map<string, string>, n: nat)
    requires 1 <= n <= |s|
    ensures var L := Cells(s, d); var c := L[n];
      && c.origin < n
      && (!c.translated ==>
            c.origin == n - 1 && c.token == [s[n - 1]] && c.cost == OovCost + L[n - 1].cost)
      && (c.translated ==>
            IsKeyAt(s, d, n, n - c.origin) && c.token == d[s[c.origin..n]]
            && c.cost == SymCost + L[c.origin].cost)
      && c.cost <= OovCost + L[n - 1].cost
      && (forall m :: IsKeyAt(s, d, n, m) ==> c.cost <= SymCost + L[n - m].cost)
      && (c.translated ==>
            c.cost < OovCost + L[n - 1].cost
            && forall m: nat :: m < n - c.origin && IsKeyAt(s, d, n, m) ==> c.cost < SymCost + L[n - m].cost)
  {
    var L := Cells(s, d);
    var prev := Lattice(s, d, n - 1);
    LatticePrefix(s, d, |s|, n);
    LatticePrefix(s, d, |s|, n - 1);
    assert L[..n] == prev;
    assert L[n] == Relax(s, d, prev, n, 1, Seed(s, prev, n)) by {
      assert L[..n + 1] == Lattice(s, d, n);
    }
    SeededRelax(s, d, prev, n);
  }

  /** Every origin of the lattice lies before its cell. */
  lemma {:induction false} LatticeLinked(s: string, d: map<string, string>)
    ensures Linked(Cells(s, d))
  {
    forall n | 0 < n < |Cells(s, d)| ensures Cells(s, d)[n].origin < n {
      CellFacts(s, d, n);
    }
  }

  // ---------------------------------------------------------------------
  // The back-trace

  /** The back-trace positions run from 0 to n, strictly increasing, and each
      one is the origin of the next. */
  lemma {:induction false} CutsShape(cells: seq<Cell>, n: nat)
    requires n < |cells| && Linked(cells)
    ensures var cuts := Cuts(cells, n);
      && |cuts| >= 1 && cuts[0] == 0 && cuts[|cuts| - 1] == n
      && (forall i :: 0 <= i < |cuts| ==> cuts[i] <= n)
      && (forall i :: 0 <= i < |cuts| - 1 ==> cuts[i] < cuts[i + 1] && cells[cuts[i + 1]].origin == cuts[i])
    decreases n
  {
    if n > 0 {
      CutsShape(cells, cells[n].origin);
    }
  }

  /** `s[a:b]` may be one span of a segmentation: a key of `d` when it is
      translated, a single character when it is not. */
  ghost predicate SpanOk(s: string, d: map<string, string>, a: nat, b: nat, translated: bool)
  {
    a < b <= |s| && (if translated then s[a..b] in d else b == a + 1)
  }

  /** What a span emits: the table's value for a translated key, the
      character itself otherwise. */
  function Emitted(s: string, d: map<string, string>, a: nat, b: nat, translated: bool): string
    requires SpanOk(s, d, a, b, translated)
  {
    if translated then d[s[a..b]] else [s[a]]
  }

  /** A segmentation of `s[..n]`: cut positions 0 = c0 < c1 < ... < ck = n,
      each span a key of `d` (flag true) or a single character (flag false). */
  ghost predicate IsSegmentation(s: string, d: map<string, string>, n: nat, cuts: seq<nat>, flags: seq<bool>)
  {
    && n <= |s|
    && |cuts| == |flags| + 1
    && cuts[0] == 0
    && cuts[|cuts| - 1] == n
    && forall i :: 0 <= i < |flags| ==> SpanOk(s, d, cuts[i], cuts[i + 1], flags[i])
  }

  /** The path cost of a segmentation: `SymCost` per translated span and
      `OovCost` per untranslated character. */
  function PathCost(flags: seq<bool>): nat
  {
    if flags == [] then 0
    else PathCost(flags[..|flags| - 1]) + (if flags[|flags| - 1] then SymCost else OovCost)
  }

  /** Coverage: the back-trace of `translate_string` tiles `[0, |s|)` with no
      gap or overlap, the two lists have one entry per span, a span flagged
      false is the single input character copied unchanged, and a span
      flagged true is a key of `d` replaced by its value. */
  lemma TraceTiles(s: string, d: map<string, string>)
    ensures var cuts := Spans(s, d); var tl := Tokens(s, d); var ttf := Flags(s, d);
      && |tl| == |ttf| == |cuts| - 1
      && IsSegmentation(s, d, |s|, cuts, ttf)
      && forall i :: 0 <= i < |ttf| ==> tl[i] == Emitted(s, d, cuts[i], cuts[i + 1], ttf[i])
  {
    var L := Cells(s, d);
    LatticeLinked(s, d);
    var cuts := Cuts(L, |s|);
    CutsShape(L, |s|);
    var tl, ttf := Tokens(s, d), Flags(s, d);
    forall i | 0 <= i < |ttf|
      ensures SpanOk(s, d, cuts[i], cuts[i + 1], ttf[i])
      ensures tl[i] == Emitted(s, d, cuts[i], cuts[i + 1], ttf[i])
    {
      CellFacts(s, d, cuts[i + 1]);
    }
  }

  /** Each cell's cost is its origin's plus the cost of its own span. */
  ghost predicate CostsAdd(cells: seq<Cell>)
    requires Linked(cells)
  {
    forall n :: 0 < n < |cells| ==>
      cells[n].cost == cells[cells[n].origin].cost + (if cells[n].translated then SymCost else OovCost)
  }

  /** The cost of the path the back-trace follows from cell n is the cost
      stored in cell n. */
  lemma {:induction false} TraceCostAt(cells: seq<Cell>, n: nat)
    requires n < |cells| && Linked(cells) && CostsAdd(cells) && cells[0].cost == 0
    ensures PathCost(FlagsTo(cells, n)) == cells[n].cost
    decreases n
  {
    if n > 0 {
      var o := cells[n].origin;
      TraceCostAt(cells, o);
      CutsShape(cells, n);
      assert Cuts(cells, n) == Cuts(cells, o) + [n];
      assert FlagsTo(cells, n)[..|FlagsTo(cells, n)| - 1] == FlagsTo(cells, o);
    }
  }

  /** Every segmentation of `s[..n]` costs at least what cell n holds. */
  lemma {:induction false} LowerBound(s: string, d: map<string, string>, n: nat, cuts: seq<nat>, flags: seq<bool>)
    requires IsSegmentation(s, d, n, cuts, flags)
    ensures Cells(s, d)[n].cost <= PathCost(flags)
    decreases |flags|
  {
    if flags == [] {
      LatticePrefix(s, d, |s|, 0);
    } else {
      var k := |flags| - 1;
      var c := cuts[k];
      assert IsSegmentation(s, d, c, cuts[..k + 1], flags[..k]);
      LowerBound(s, d, c, cuts[..k + 1], flags[..k]);
      CellFacts(s, d, n);
      assert SpanOk(s, d, cuts[k], cuts[k + 1], flags[k]);
      assert flags[..|flags| - 1] == flags[..k];
      var L := Cells(s, d);
      assert PathCost(flags) == PathCost(flags[..k]) + (if flags[k] then SymCost else OovCost);
      if flags[k] {
        assert IsKeyAt(s, d, n, n - c);
        assert L[n].cost <= SymCost + L[c].cost;
      } else {
        assert c == n - 1;
        assert L[n].cost <= OovCost + L[c].cost;
      }
    }
  }

  /** Optimality: the back-trace is a segmentation of `s` whose path cost is
      the cost of the final cell, and no segmentation of `s` into keys of
      `d` and single characters costs less. */
  lemma Optimal(s: string, d: map<string, string>)
    ensures IsSegmentation(s, d, |s|, Spans(s, d), Flags(s, d))
    ensures PathCost(Flags(s, d)) == Cells(s, d)[|s|].cost
    ensures forall cuts, flags :: IsSegmentation(s, d, |s|, cuts, flags) ==>
              PathCost(Flags(s, d)) <= PathCost(flags)
  {
    TraceTiles(s, d);
    TraceCost(s, d);
    forall cuts, flags | IsSegmentation(s, d, |s|, cuts, flags)
      ensures PathCost(Flags(s, d)) <= PathCost(flags)
    {
      LowerBound(s, d, |s|, cuts, flags);
    }
  }

  /** The path the back-trace of the whole lattice follows costs what the
      final cell holds. */
  lemma TraceCost(s: string, d: map<string, string>)
    ensures PathCost(Flags(s, d)) == Cells(s, d)[|s|].cost
  {
    var L := Cells(s, d);
    LatticeLinked(s, d);
    LatticeCostsAdd(s, d);
    LatticePrefix(s, d, |s|, 0);
    TraceCostAt(L, |s|);
  }

  /** Each cell of the lattice costs its origin's cost plus its span's. */
  lemma LatticeCostsAdd(s: string, d: map<string, string>)
    ensures Linked(Cells(s, d)) && CostsAdd(Cells(s, d))
  {
    var L := Cells(s, d);
    LatticeLinked(s, d);
    forall n | 0 < n < |L|
      ensures L[n].cost == L[L[n].origin].cost + (if L[n].translated then SymCost else OovCost)
    {
      CellFacts(s, d, n);
    }
  }

  // ---------------------------------------------------------------------
  // The imperative algorithm

  /** `max(len(k) for k in d.keys())`; Python raises on an empty table. */
  method MaxKeyLength(d: map<string, string>) returns (maxsym: nat)
    requires d != map[]
    ensures forall k :: k in d ==> |k| <= maxsym
    ensures exists k :: k in d && |k| == maxsym
  {
    var rest := d.Keys;
    assert rest != {} by { var k :| k in d; assert k in rest; }
    var first :| first in rest;
    maxsym := |first|;
    rest := rest - {first};
    while rest != {}
      invariant rest <= d.Keys
      invariant forall k :: k in d && k !in rest ==> |k| <= maxsym
      invariant exists k :: k in d && |k| == maxsym
      decreases rest
    {
      var k :| k in rest;
      if |k| > maxsym {
        maxsym := |k|;
      }
      rest := rest - {k};
    }
  }

  /** The forward pass of `translate_string`: cell 0 is the base case, and
      each cell n is seeded with `s[n-1]` passed through, then improved by
      every key `s[n-m:n]` with `m <= maxsym` that is strictly cheaper. */
  method FillLattice(s: string, d: map<string, string>, maxsym: nat) returns (lattice: array<Cell>)
    requires forall k :: k in d ==> |k| <= maxsym
    ensures fresh(lattice)
    ensures lattice[..] == Cells(s, d)
  {
    var N := |s|;
    lattice := new Cell[N + 1];
    lattice[0] := Start;
    for n := 1 to N + 1
      invariant lattice[..n] == Lattice(s, d, n - 1)
    {
      // Seed: s[n-1] passed through.
      lattice[n] := Cell(OovCost + lattice[n - 1].cost, n - 1, s[n - 1..n], false);
      ImproveCell(s, d, maxsym, lattice, n);
    }
    assert lattice[..] == lattice[..N + 1];
  }

  /** The inner loop of the forward pass for cell n: keys ending at n,
      shortest first, each replacing the cell only when strictly cheaper.
      Given cells 0..n-1 and the seed in cell n, it leaves cells 0..n of
      the lattice. */
  method ImproveCell(s: string, d: map<string, string>, maxsym: nat, lattice: array<Cell>, n: nat)
    requires forall k :: k in d ==> |k| <= maxsym
    requires 1 <= n <= |s| && lattice.Length == |s| + 1
    requires lattice[..n] == Lattice(s, d, n - 1) && lattice[n] == Seed(s, lattice[..n], n)
    modifies lattice
    ensures lattice[..n + 1] == Lattice(s, d, n)
  {
    ghost var prev := lattice[..n];
    ghost var seed := lattice[n];
    for m := 1 to Min(n + 1, maxsym + 1)
      invariant lattice[..n] == prev
      invariant Relax(s, d, prev, n, 1, seed) == Relax(s, d, prev, n, m, lattice[n])
    {
      if s[n - m..n] in d && SymCost + lattice[n - m].cost < lattice[n].cost {
        lattice[n] := Cell(SymCost + lattice[n - m].cost, n - m, d[s[n - m..n]], true);
        assert lattice[..n] == prev;
      }
    }
    RelaxNoKeys(s, d, prev, n, Min(n + 1, maxsym + 1), lattice[n]);
    assert lattice[..n + 1] == prev + [lattice[n]];
  }

  /** The back-trace of `translate_string`: follows the origins from the
      last cell to cell 0, collecting tokens and flags, then reverses both. */
  method BackTrace(lattice: array<Cell>) returns (tl: seq<string>, translated: seq<bool>)
    requires lattice.Length > 0 && Linked(lattice[..])
    ensures tl == TokensTo(lattice[..], lattice.Length - 1)
    ensures translated == FlagsTo(lattice[..], lattice.Length - 1)
  {
    ghost var cells := lattice[..];
    var N := lattice.Length - 1;
    CutsShape(cells, N);
    var rtl: seq<string> := [];
    var rtr: seq<bool> := [];
    ghost var ends: seq<nat> := [];
    var n: nat := N;
    while n > 0
      invariant n <= N
      invariant Cuts(cells, N) == Cuts(cells, n) + Reversed(ends)
      invariant |rtl| == |rtr| == |ends|
      invariant forall j :: 0 <= j < |ends| ==>
                  ends[j] <= N && rtl[j] == cells[ends[j]].token && rtr[j] == cells[ends[j]].translated
      decreases n
    {
      assert lattice[n] == cells[n];
      rtl := rtl + [lattice[n].token];
      rtr := rtr + [lattice[n].translated];
      assert Reversed(ends + [n]) == [n] + Reversed(ends);
      ends := ends + [n];
      n := lattice[n].origin;
    }
    tl := Reversed(rtl);
    translated := Reversed(rtr);
    assert Cuts(cells, N) == [0] + Reversed(ends);
    TraceCollected(cells, Cuts(cells, N), ends, rtl, rtr);
  }

  /** What the back-trace collected, read backwards, is the tokens and
      flags of the cells at the cut positions after 0. */
  lemma {:induction false} TraceCollected(cells: seq<Cell>, cuts: seq<nat>, ends: seq<nat>, rtl: seq<string>, rtr: seq<bool>)
    requires cuts == [0] + Reversed(ends)
    requires |rtl| == |rtr| == |ends|
    requires forall j :: 0 <= j < |ends| ==>
               ends[j] < |cells| && rtl[j] == cells[ends[j]].token && rtr[j] == cells[ends[j]].translated
    ensures Reversed(rtl) == seq(|cuts| - 1, i requires 0 <= i < |cuts| - 1 => cells[cuts[i + 1]].token)
    ensures Reversed(rtr) == seq(|cuts| - 1, i requires 0 <= i < |cuts| - 1 => cells[cuts[i + 1]].translated)
  {
    var k := |ends|;
    var tl := seq(|cuts| - 1, i requires 0 <= i < |cuts| - 1 => cells[cuts[i + 1]].token);
    var tf := seq(|cuts| - 1, i requires 0 <= i < |cuts| - 1 => cells[cuts[i + 1]].translated);
    forall i | 0 <= i < k ensures Reversed(rtl)[i] == tl[i] {
      assert cuts[i + 1] == Reversed(ends)[i] == ends[k - 1 - i];
    }
    forall i | 0 <= i < k ensures Reversed(rtr)[i] == tf[i] {
      assert cuts[i + 1] == Reversed(ends)[i] == ends[k - 1 - i];
    }
  }

  /** `translate_string(s, d)`: the token list and the parallel list of
      translated flags.  Python's `max` raises on an empty table. */
  method TranslateString(s: string, d: map<string, string>) returns (tl: seq<string>, translated: seq<bool>)
    requires d != map[]
    ensures tl == Tokens(s, d) && translated == Flags(s, d)
    ensures |tl| == |translated|
    ensures s == [] ==> tl == [] && translated == []
  {
    var maxsym := MaxKeyLength(d);
    var lattice := FillLattice(s, d, maxsym);
    LatticeLinked(s, d);
    tl, translated := BackTrace(lattice);
  }
}

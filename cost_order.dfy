/** What the path costs of `translate_string` mean for the docstring of
    IPAtranslate.py:228-229, which describes the result as having the fewest
    untranslatable symbols first and then the fewest symbols.  With a cost
    of 1 per translated span and 10 per untranslated character, that order
    is what the costs give whenever no segmentation needs ten more
    translated spans than another to save one untranslated character: in
    particular for every input shorter than ten characters.  A 13-character
    input with a longer key shows the other case. */
module CostOrder {
  import opened Segmenter

  /** The number of untranslated characters a flag list records. */
  function Passthroughs(flags: seq<bool>): nat
  {
    if flags == [] then 0
    else Passthroughs(flags[..|flags| - 1]) + (if flags[|flags| - 1] then 0 else 1)
  }

  /** The number of translated spans a flag list records. */
  function Translations(flags: seq<bool>): nat
  {
    if flags == [] then 0
    else Translations(flags[..|flags| - 1]) + (if flags[|flags| - 1] then 1 else 0)
  }

  /** The path cost counts translated spans once and untranslated
      characters ten times, and every span is one or the other. */
  lemma {:induction false} PathCostCounts(flags: seq<bool>)
    ensures PathCost(flags) == Translations(flags) + OovCost * Passthroughs(flags)
    ensures Translations(flags) + Passthroughs(flags) == |flags|
  {
    if flags != [] {
      PathCostCounts(flags[..|flags| - 1]);
    }
  }

  /** A segmentation of `s[..n]` has at most n spans: every span holds at
      least one character. */
  lemma SpansAtMostLength(s: string, d: map<string, string>, n: nat, cuts: seq<nat>, flags: seq<bool>)
    requires IsSegmentation(s, d, n, cuts, flags)
    ensures |flags| <= n
  {
    var i := 0;
    while i < |flags|
      invariant i <= |flags| && i <= cuts[i]
    {
      assert SpanOk(s, d, cuts[i], cuts[i + 1], flags[i]);
      i := i + 1;
    }
  }

  /** The docstring's order as far as the costs give it: against any other
      segmentation, the result has no more untranslated characters unless
      the other needs at least ten more translated spans; and with as many
      untranslated characters as another, it has no more spans. */
  lemma FewestPassthroughs(s: string, d: map<string, string>, cuts: seq<nat>, flags: seq<bool>)
    requires IsSegmentation(s, d, |s|, cuts, flags)
    ensures var ttf := Flags(s, d);
      && (Passthroughs(flags) < Passthroughs(ttf) ==>
            Translations(flags) >= Translations(ttf) + OovCost)
      && (Passthroughs(flags) == Passthroughs(ttf) ==> |ttf| <= |flags|)
  {
    Optimal(s, d);
    PathCostCounts(flags);
    PathCostCounts(Flags(s, d));
  }

  /** For inputs shorter than ten characters the result has the fewest
      untranslated characters of all segmentations, and the fewest spans
      among those that tie. */
  lemma ShortInputsLexicographic(s: string, d: map<string, string>, cuts: seq<nat>, flags: seq<bool>)
    requires |s| < OovCost && IsSegmentation(s, d, |s|, cuts, flags)
    ensures var ttf := Flags(s, d);
      && Passthroughs(ttf) <= Passthroughs(flags)
      && (Passthroughs(ttf) == Passthroughs(flags) ==> |ttf| <= |flags|)
  {
    FewestPassthroughs(s, d, cuts, flags);
    SpansAtMostLength(s, d, |s|, cuts, flags);
    PathCostCounts(flags);
  }
}

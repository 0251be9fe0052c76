/** The four conversion tables of IPAtranslate.py, built from the two
    literals the way the source builds them:

      _xsampa2ipa           = {k: re.sub('◌', '', v) for (k, v) in {...}.items()}
      _xdiacritics2ipa      = {k: re.sub('◌', '', v) for (k, v) in {...}.items()}
      _xsampa_and_diac2ipa  = _xsampa2ipa.copy(); .update({'_'+k: v ...})
      _ipa2xsampa           = {v: k for (k, v) in _xsampa_and_diac2ipa.items()}

    Each table is a `PyDict.Items` (its items in iteration order); the
    mapping it denotes is `ToMap` of it. */
module SymbolTables {
  import opened PyDict
  import opened XsampaLiterals

  /** The dotted circle U+25CC that the literals write before each
      combining mark. */
  const Placeholder: char := '\U{25CC}'

  /** `re.sub('◌', '', v)`: every placeholder removed, everything else kept
      in order. */
  function Strip(v: string): (r: string)
    ensures Placeholder !in r
    ensures multiset(r) == multiset(v)[Placeholder := 0]
    ensures Placeholder !in v ==> r == v
  {
    if v == [] then []
    else
      assert v == [v[0]] + v[1..];
      if v[0] == Placeholder then Strip(v[1..]) else [v[0]] + Strip(v[1..])
  }

  /** `re.sub` on one character: a placeholder goes, anything else stays. */
  lemma StripChar(c: char)
    ensures Strip([c]) == if c == Placeholder then [] else [c]
  {
    assert [c][1..] == [];
  }

  /** Stripping works piecewise: the kept characters of `a + b` are those
      of `a` followed by those of `b`, so their order is the order they had
      in the value. */
  lemma {:induction false} StripAppend(a: string, b: string)
    ensures Strip(a + b) == Strip(a) + Strip(b)
  {
    if a == [] {
      assert a + b == b;
    } else {
      assert (a + b)[0] == a[0] && (a + b)[1..] == a[1..] + b;
      StripAppend(a[1..], b);
    }
  }

  /** The pairs of the comprehension `(k, re.sub('◌', '', v))`. */
  function StripPairs(d: Items<string, string>): (r: Items<string, string>)
    ensures |r| == |d|
    ensures forall i :: 0 <= i < |d| ==> r[i] == (d[i].0, Strip(d[i].1))
  {
    seq(|d|, i requires 0 <= i < |d| => (d[i].0, Strip(d[i].1)))
  }

  /** `{k: re.sub('◌', '', v) for (k, v) in {<lit>}.items()}`. */
  function StripValues(lit: Items<string, string>): (r: Items<string, string>)
    ensures UniqueKeys(r) && Keys(r) == Keys(lit)
  {
    var ps := StripPairs(FromPairs(lit));
    assert Keys(ps) == Keys(FromPairs(lit)) by {
      forall k | k in Keys(FromPairs(lit)) ensures k in Keys(ps) {
        var i :| 0 <= i < |FromPairs(lit)| && FromPairs(lit)[i].0 == k;
        assert ps[i].0 == k;
      }
    }
    FromPairs(ps)
  }

  /** The pairs of the comprehension `('_' + k, v)`. */
  function PrefixPairs(d: Items<string, string>): (r: Items<string, string>)
    ensures |r| == |d|
    ensures forall i :: 0 <= i < |d| ==> r[i] == ("_" + d[i].0, d[i].1)
  {
    seq(|d|, i requires 0 <= i < |d| => ("_" + d[i].0, d[i].1))
  }

  /** `{('_' + k): v for (k, v) in d.items()}`. */
  function PrefixKeys(d: Items<string, string>): (r: Items<string, string>)
    ensures UniqueKeys(r)
    ensures forall x :: x in Keys(r) ==> |x| > 0 && x[0] == '_'
  {
    var ps := PrefixPairs(d);
    assert forall x :: x in Keys(ps) ==> |x| > 0 && x[0] == '_' by {
      forall x | x in Keys(ps) ensures |x| > 0 && x[0] == '_' {
        var i :| 0 <= i < |ps| && ps[i].0 == x;
      }
    }
    FromPairs(ps)
  }

  /** `_xsampa2ipa`. */
  function XsampaToIpa(): Items<string, string>
  {
    StripValues(BaseLiteral())
  }

  /** `_xdiacritics2ipa`. */
  function DiacriticsToIpa(): Items<string, string>
  {
    StripValues(DiacriticLiteral())
  }

  /** `_xsampa_and_diac2ipa`: a copy of the base table updated with the
      underscore-prefixed diacritics. */
  function XsampaAndDiacToIpa(): Items<string, string>
  {
    Combined(BaseLiteral(), DiacriticLiteral())
  }

  /** `_ipa2xsampa`. */
  function IpaToXsampa(): Items<string, string>
  {
    Invert(XsampaAndDiacToIpa())
  }

  /** Stripping the values of a list of pairs strips the values of the
      mapping it denotes, key by key. */
  lemma {:induction false} StripPairsToMap(d: Items<string, string>)
    ensures ToMap(StripPairs(d)).Keys == ToMap(d).Keys
    ensures forall k :: k in ToMap(d) ==> ToMap(StripPairs(d))[k] == Strip(ToMap(d)[k])
  {
    if d != [] {
      var n := |d| - 1;
      assert StripPairs(d)[..n] == StripPairs(d[..n]);
      StripPairsToMap(d[..n]);
    }
  }

  /** A table built with `StripValues` has the keys of its literal, each
      mapped to the literal's value with the placeholder removed; so no value
      holds a placeholder. */
  lemma StripValuesMap(lit: Items<string, string>)
    ensures ToMap(StripValues(lit)).Keys == ToMap(lit).Keys
    ensures forall k :: k in ToMap(lit) ==> ToMap(StripValues(lit))[k] == Strip(ToMap(lit)[k])
    ensures forall v :: v in ToMap(StripValues(lit)).Values ==> Placeholder !in v
  {
    StripPairsToMap(FromPairs(lit));
  }

  /** Prefixing the keys of a list of pairs prefixes the keys of the mapping
      it denotes. */
  lemma {:induction false} PrefixPairsToMap(d: Items<string, string>)
    ensures forall k :: k in ToMap(d) <==> "_" + k in ToMap(PrefixPairs(d))
    ensures forall k :: k in ToMap(d) ==> ToMap(PrefixPairs(d))["_" + k] == ToMap(d)[k]
    ensures forall x :: x in ToMap(PrefixPairs(d)) ==> |x| > 0 && x[0] == '_'
  {
    if d != [] {
      var n := |d| - 1;
      assert PrefixPairs(d)[..n] == PrefixPairs(d[..n]);
      PrefixPairsToMap(d[..n]);
      forall k ensures "_" + k == "_" + d[n].0 <==> k == d[n].0 {
        if "_" + k == "_" + d[n].0 {
          assert k == ("_" + k)[1..];
        }
      }
    }
  }

  /** A key that does not begin with an underscore. */
  predicate Plain(k: string)
  {
    k == [] || k[0] != '_'
  }

  /** The combined table of two literals: the stripped base table updated
      with the prefixed, stripped diacritics.  As a mapping it is the
      stripped base overridden by the prefixed diacritics. */
  function Combined(base: Items<string, string>, diac: Items<string, string>): (r: Items<string, string>)
    ensures UniqueKeys(r)
    ensures ToMap(r) == ToMap(StripValues(base)) + ToMap(PrefixPairs(StripValues(diac)))
  {
    PutAll(StripValues(base), PrefixKeys(StripValues(diac)))
  }

  /** A plain base key keeps its stripped base value in the combined
      table: no prefixed diacritic can shadow it. */
  lemma KeptBaseEntry(base: Items<string, string>, diac: Items<string, string>, k: string)
    requires Plain(k) && k in ToMap(base)
    ensures k in ToMap(Combined(base, diac))
    ensures ToMap(Combined(base, diac))[k] == Strip(ToMap(base)[k])
  {
    StripValuesMap(base);
    PrefixPairsToMap(StripValues(diac));
    assert k !in ToMap(PrefixPairs(StripValues(diac)));
  }

  /** A plain base key whose literal value has no placeholder keeps that
      value in the combined table. */
  lemma KeptBaseValue(base: Items<string, string>, diac: Items<string, string>, k: string, v: string)
    requires Plain(k) && k in ToMap(base) && ToMap(base)[k] == v && Placeholder !in v
    ensures k in ToMap(Combined(base, diac)) && ToMap(Combined(base, diac))[k] == v
  {
    KeptBaseEntry(base, diac, k);
  }

  /** Every diacritic `k` is in the combined table as `'_' + k`, with its
      stripped value. */
  lemma PrefixedEntry(base: Items<string, string>, diac: Items<string, string>, k: string)
    requires k in ToMap(diac)
    ensures "_" + k in ToMap(Combined(base, diac))
    ensures ToMap(Combined(base, diac))["_" + k] == Strip(ToMap(diac)[k])
  {
    StripValuesMap(diac);
    PrefixPairsToMap(StripValues(diac));
  }

  /** Each key of the combined table is a base key or an underscore
      followed by a diacritic. */
  lemma {:induction false} CombinedKeys(base: Items<string, string>, diac: Items<string, string>)
    ensures forall x :: x in ToMap(Combined(base, diac)) ==>
      x in ToMap(base) || (|x| > 0 && x[0] == '_' && x[1..] in ToMap(diac))
  {
    var d := StripValues(diac);
    StripValuesMap(base);
    StripValuesMap(diac);
    PrefixPairsToMap(d);
    forall x | x in ToMap(Combined(base, diac)) && x !in ToMap(base)
      ensures |x| > 0 && x[0] == '_' && x[1..] in ToMap(diac)
    {
      assert x in ToMap(PrefixPairs(d));
      assert x == "_" + x[1..];
    }
  }

  /** Prefixing keys keeps the values of a mapping. */
  lemma PrefixPairsValues(d: Items<string, string>)
    ensures ToMap(PrefixPairs(d)).Values <= ToMap(d).Values
  {
    PrefixPairsToMap(d);
    forall v | v in ToMap(PrefixPairs(d)).Values ensures v in ToMap(d).Values {
      var x :| x in ToMap(PrefixPairs(d)) && ToMap(PrefixPairs(d))[x] == v;
      assert x == "_" + x[1..];
    }
  }

  /** No value of the combined table holds a placeholder. */
  lemma {:induction false} CombinedValues(base: Items<string, string>, diac: Items<string, string>)
    ensures forall v :: v in ToMap(Combined(base, diac)).Values ==> Placeholder !in v
  {
    var b, p := ToMap(StripValues(base)), ToMap(PrefixPairs(StripValues(diac)));
    StripValuesMap(base);
    StripValuesMap(diac);
    PrefixPairsValues(StripValues(diac));
    UnionValues(b, p);
  }

  /** The combined table, for any two literals whose base keys are plain:
      it keeps every base entry unchanged, holds `'_' + k` with the value of
      every diacritic `k`, and has nothing else; no value holds a
      placeholder. */
  lemma Combination(base: Items<string, string>, diac: Items<string, string>)
    requires forall k :: k in ToMap(base) ==> Plain(k)
    ensures var comb := ToMap(Combined(base, diac));
      && (forall k :: k in ToMap(base) ==>
            k in comb && comb[k] == Strip(ToMap(base)[k]))
      && (forall k :: k in ToMap(diac) ==>
            "_" + k in comb && comb["_" + k] == Strip(ToMap(diac)[k]))
      && (forall x :: x in comb ==>
            x in ToMap(base) || (|x| > 0 && x[0] == '_' && x[1..] in ToMap(diac)))
      && (forall v :: v in comb.Values ==> Placeholder !in v)
  {
    forall k | k in ToMap(base)
      ensures k in ToMap(Combined(base, diac))
      ensures ToMap(Combined(base, diac))[k] == Strip(ToMap(base)[k])
    {
      KeptBaseEntry(base, diac, k);
    }
    forall k | k in ToMap(diac)
      ensures "_" + k in ToMap(Combined(base, diac))
      ensures ToMap(Combined(base, diac))["_" + k] == Strip(ToMap(diac)[k])
    {
      PrefixedEntry(base, diac, k);
    }
    CombinedKeys(base, diac);
    CombinedValues(base, diac);
  }

  /** No key of a run of literal pairs begins with an underscore. */
  ghost predicate PlainKeys(ps: Items<string, string>)
  {
    forall i :: 0 <= i < |ps| ==> Plain(ps[i].0)
  }

  /** Runs of plain keys written one after the other are plain keys. */
  lemma PlainKeysAppend(a: Items<string, string>, b: Items<string, string>)
    requires PlainKeys(a) && PlainKeys(b)
    ensures PlainKeys(a + b)
  {
    forall i | 0 <= i < |a + b| ensures Plain((a + b)[i].0) {
      if i >= |a| { assert (a + b)[i] == b[i - |a|]; }
    }
  }

  /** Every key of the mapping of a run of plain keys is plain. */
  lemma PlainKeysMap(ps: Items<string, string>)
    requires PlainKeys(ps)
    ensures forall k :: k in ToMap(ps) ==> Plain(k)
  {
    forall k | k in ToMap(ps) ensures Plain(k) {
      var i :| 0 <= i < |ps| && ps[i].0 == k;
    }
  }

  /** No key of the `_xsampa2ipa` literal begins with an underscore, so the
      prefixed diacritics cannot shadow a base entry. */
  lemma BaseKeysPlain()
    ensures forall k :: k in ToMap(BaseLiteral()) ==> Plain(k)
  {
    var b1, b2, b3, b4, b5 := BaseLines26To51, BaseLines52To77, BaseLines78To103,
      BaseLines104To129, BaseLines130To157;
    assert PlainKeys(b1);
    assert PlainKeys(b2);
    assert PlainKeys(b3);
    assert PlainKeys(b4);
    assert PlainKeys(b5);
    PlainKeysAppend(b1, b2);
    PlainKeysAppend(b1 + b2, b3);
    PlainKeysAppend(b1 + b2 + b3, b4);
    PlainKeysAppend(b1 + b2 + b3 + b4, b5);
    PlainKeysMap(BaseLiteral());
  }

  /** `_xsampa_and_diac2ipa` (IPAtranslate.py:219-220): every entry of
      `_xsampa2ipa` unchanged, `'_' + k` for every diacritic `k` with its
      value, nothing else; and no value of any of the three tables holds
      the placeholder. */
  lemma CombinedTable()
    ensures var base, diac, comb :=
      ToMap(XsampaToIpa()), ToMap(DiacriticsToIpa()), ToMap(XsampaAndDiacToIpa());
      && (forall k :: k in base ==> k in comb && comb[k] == base[k])
      && (forall k :: k in diac ==> "_" + k in comb && comb["_" + k] == diac[k])
      && (forall x :: x in comb ==>
            x in base || (|x| > 0 && x[0] == '_' && x[1..] in diac))
      && (forall v :: v in base.Values ==> Placeholder !in v)
      && (forall v :: v in diac.Values ==> Placeholder !in v)
      && (forall v :: v in comb.Values ==> Placeholder !in v)
  {
    BaseKeysPlain();
    CombinedTableOf(BaseLiteral(), DiacriticLiteral());
  }

  /** `CombinedTable` for any two literals whose base keys are plain. */
  lemma {:induction false} CombinedTableOf(baseLit: Items<string, string>, diacLit: Items<string, string>)
    requires forall k :: k in ToMap(baseLit) ==> Plain(k)
    ensures var base, diac, comb :=
      ToMap(StripValues(baseLit)), ToMap(StripValues(diacLit)), ToMap(Combined(baseLit, diacLit));
      && (forall k :: k in base ==> k in comb && comb[k] == base[k])
      && (forall k :: k in diac ==> "_" + k in comb && comb["_" + k] == diac[k])
      && (forall x :: x in comb ==>
            x in base || (|x| > 0 && x[0] == '_' && x[1..] in diac))
      && (forall v :: v in base.Values ==> Placeholder !in v)
      && (forall v :: v in diac.Values ==> Placeholder !in v)
      && (forall v :: v in comb.Values ==> Placeholder !in v)
  {
    Combination(baseLit, diacLit);
    StripValuesMap(baseLit);
    StripValuesMap(diacLit);
  }

  /** `_ipa2xsampa` (IPAtranslate.py:222): its keys are exactly the values
      of the combined table; looking a key up and translating the result
      forward gives the key back; and where several X-SAMPA symbols share a
      value, the one written last in the combined table is chosen. */
  lemma ReverseTable()
    ensures var comb, inv := ToMap(XsampaAndDiacToIpa()), ToMap(IpaToXsampa());
      && inv.Keys == comb.Values
      && (forall v :: v in inv ==> inv[v] in comb && comb[inv[v]] == v)
      && (forall v :: v in inv ==>
            inv[v] == XsampaAndDiacToIpa()[LastWithValue(XsampaAndDiacToIpa(), v)].0)
  {
    Inversion(XsampaAndDiacToIpa());
  }

  /** Lines 56-57 of IPAtranslate.py: `p` and the X-SAMPA bilabial
      fricative `p\` are keys of the combined table, with values `p` and
      `ɸ`. */
  lemma BilabialEntries()
    ensures var comb := ToMap(XsampaAndDiacToIpa());
      && "p\\" in comb && comb["p\\"] == "ɸ"
      && "p" in comb && comb["p"] == "p"
  {
    BaseBilabial();
    BilabialKept(BaseLiteral(), DiacriticLiteral());
  }

  lemma BilabialKept(base: Items<string, string>, diac: Items<string, string>)
    requires var m := ToMap(base);
      "p" in m && m["p"] == "p" && "p\\" in m && m["p\\"] == "ɸ"
    ensures var comb := ToMap(Combined(base, diac));
      && "p\\" in comb && comb["p\\"] == "ɸ"
      && "p" in comb && comb["p"] == "p"
  {
    KeptBaseValue(base, diac, "p", "p");
    KeptBaseValue(base, diac, "p\\", "ɸ");
  }

  /** Two adjacent pairs with distinct keys, neither written again later,
      both decide the mapping of their keys. */
  lemma LookupLastTwo(ps: Items<string, string>, j: nat)
    requires j + 1 < |ps| && ps[j].0 != ps[j + 1].0
    requires forall i :: j + 1 < i < |ps| ==> ps[i].0 != ps[j].0 && ps[i].0 != ps[j + 1].0
    ensures ps[j].0 in ToMap(ps) && ToMap(ps)[ps[j].0] == ps[j].1
    ensures ps[j + 1].0 in ToMap(ps) && ToMap(ps)[ps[j + 1].0] == ps[j + 1].1
  {
    LookupLast(ps, j);
    LookupLast(ps, j + 1);
  }

  /** The `_xsampa2ipa` literal maps `p` to `p` and `p\` to `ɸ`. */
  lemma BaseBilabial()
    ensures var m := ToMap(BaseLiteral());
      "p" in m && m["p"] == "p" && "p\\" in m && m["p\\"] == "ɸ"
  {
    var b1, b2, b3, b4, b5 := BaseLines26To51, BaseLines52To77, BaseLines78To103,
      BaseLines104To129, BaseLines130To157;
    BilabialRun();
    NoBilabialLater();
    ToMapAppend(b1, b2);
    ToMapAppend(b1 + b2, b3);
    ToMapAppend(b1 + b2 + b3, b4);
    ToMapAppend(b1 + b2 + b3 + b4, b5);
  }

  /** The run of lines 52-77 maps `p` to `p` and `p\` to `ɸ`. */
  lemma BilabialRun()
    ensures var m := ToMap(BaseLines52To77);
      "p" in m && m["p"] == "p" && "p\\" in m && m["p\\"] == "ɸ"
  {
    var r := BaseLines52To77;
    assert r[4] == ("p", "p") && r[5] == ("p\\", "ɸ");
    assert forall i :: 5 < i < |r| ==> r[i].0 != "p" && r[i].0 != "p\\";
    LookupLastTwo(r, 4);
  }

  /** Neither `p` nor `p\` is written again after line 77. */
  lemma NoBilabialLater()
    ensures forall k :: k in {"p", "p\\"} ==>
      k !in Keys(BaseLines78To103) && k !in Keys(BaseLines104To129) && k !in Keys(BaseLines130To157)
  {
    var b3, b4, b5 := BaseLines78To103, BaseLines104To129, BaseLines130To157;
    assert forall i | 0 <= i < |b3| :: b3[i].0 != "p" && b3[i].0 != "p\\";
    assert forall i | 0 <= i < |b4| :: b4[i].0 != "p" && b4[i].0 != "p\\";
    assert forall i | 0 <= i < |b5| :: b5[i].0 != "p" && b5[i].0 != "p\\";
  }

  /** Three of the nine groups of entries of the combined table that share
      a value, in table order: `=` (line 27) and `_=` (line 170) both give
      the syllabic mark U+0329, `v\` (line 71) and `P` (line 107) both give
      `ʋ`, and `-`, `*` and `/` (lines 127, 145, 146) all give the empty
      string.  The other six groups are pairs of the same kind: `>`/`_>`,
      `` ` ``/`` _` ``, `~`/`_~`, `'`/`_j`, `_/`/`_R` and `_\`/`_F`. */
  const CollidingEntries: Items<string, string> := [
    ("=", "\U{0329}"), ("v\\", "ʋ"), ("P", "ʋ"),
    ("-", ""), ("*", ""), ("/", ""), ("_=", "\U{0329}")
  ]

  /** Seven entries whose values collide in the pattern of
      `CollidingEntries`: entries 0 and 6 share one value, entries 1 and 2
      another, entries 3, 4 and 5 a third. */
  ghost predicate CollisionShape(e: Items<string, string>)
  {
    && |e| == 7
    && e[0].1 == e[6].1 && e[1].1 == e[2].1
    && e[3].1 == e[4].1 && e[4].1 == e[5].1
    && e[6].1 != e[2].1 && e[6].1 != e[5].1 && e[2].1 != e[5].1
  }

  /** Inverting entries of that pattern keeps, for each of the three
      values, the key of the last entry that has it. */
  lemma LastOfEachValue(e: Items<string, string>)
    requires CollisionShape(e)
    ensures var inv := ToMap(Invert(e));
      && inv.Keys == {e[6].1, e[2].1, e[5].1}
      && inv[e[2].1] == e[2].0 && inv[e[5].1] == e[5].0 && inv[e[6].1] == e[6].0
  {
    var sw := Swap(e);
    LookupLast(sw, 2);
    LookupLast(sw, 5);
    LookupLast(sw, 6);
    assert Keys(sw) == {e[6].1, e[2].1, e[5].1} by {
      assert forall i :: 0 <= i < |sw| ==> sw[i].0 in {e[6].1, e[2].1, e[5].1};
      assert sw[2].0 == e[2].1 && sw[5].0 == e[5].1 && sw[6].0 == e[6].1;
    }
  }

  /** Inverting these entries keeps the last key written for each value:
      IPA `ʋ` goes back to `P`, the empty string to `/`, and the syllabic
      mark to `_=`; `v\`, `-`, `*` and `=` are not reached backwards. */
  lemma LastKeyWins()
    ensures var inv := ToMap(Invert(CollidingEntries));
      && inv.Keys == {"\U{0329}", "ʋ", ""}
      && inv["ʋ"] == "P" && inv[""] == "/" && inv["\U{0329}"] == "_="
  {
    var e := CollidingEntries;
    assert e[2] == ("P", "ʋ") && e[5] == ("/", "") && e[6] == ("_=", "\U{0329}");
    LastOfEachValue(e);
  }
}

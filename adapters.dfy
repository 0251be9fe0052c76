/** The direction adapters of IPAtranslate.py: `xsampa2ipa` and
    `ipa2xsampa` run the segmenter over one of the tables and join the
    tokens, and `translateStr` picks the direction by name.  The `language`
    argument of the first two is accepted and never read. */
module Adapters {
  import opened PyDict
  import opened SymbolTables
  import opened Segmenter
  import opened SegmenterCases

  datatype Option<T> = None | Some(value: T)

  /** `''.join(tl)`. */
  function Join(tl: seq<string>): (r: string)
    ensures tl == [] ==> r == []
    ensures |tl| == 1 ==> r == tl[0]
  {
    if tl == [] then [] else Join(tl[..|tl| - 1]) + tl[|tl| - 1]
  }

  /** Joining two token lists one after the other joins each and
      concatenates the results. */
  lemma {:induction false} JoinAppend(a: seq<string>, b: seq<string>)
    ensures Join(a + b) == Join(a) + Join(b)
    decreases |b|
  {
    if b == [] {
      assert a + b == a;
    } else {
      var n := |b| - 1;
      assert (a + b)[..|a + b| - 1] == a + b[..n];
      JoinAppend(a, b[..n]);
    }
  }

  /** The combined X-SAMPA table as a mapping. */
  function XsampaTable(): map<string, string>
  {
    ToMap(XsampaAndDiacToIpa())
  }

  /** The reverse table as a mapping. */
  function IpaTable(): map<string, string>
  {
    ToMap(IpaToXsampa())
  }

  /** Both tables have at least one key, so `max` over their key lengths is
      defined. */
  lemma TablesNonEmpty()
    ensures XsampaTable() != map[] && IpaTable() != map[]
  {
    BilabialEntries();
    ReverseTable();
    assert "ɸ" in XsampaTable().Values;
  }

  /** `xsampa2ipa(x, language)`. */
  method XsampaToIpaPhone(x: string, language: string) returns (r: string)
    ensures r == Join(Tokens(x, XsampaTable()))
  {
    TablesNonEmpty();
    var tl, ttf := TranslateString(x, XsampaTable());
    r := Join(tl);
  }

  /** `ipa2xsampa(x, language)`. */
  method IpaToXsampaPhone(x: string, language: string) returns (r: string)
    ensures r == Join(Tokens(x, IpaTable()))
  {
    TablesNonEmpty();
    var tl, ttf := TranslateString(x, IpaTable());
    r := Join(tl);
  }

  /** `translateStr(string, transTo)`: `'ipa'` converts X-SAMPA to IPA,
      `'xsampa'` converts IPA to X-SAMPA, and any other direction falls off
      the end of the function and yields `None`. */
  method TranslateStr(str: string, transTo: string) returns (r: Option<string>)
    ensures transTo == "ipa" ==> r == Some(Join(Tokens(str, XsampaTable())))
    ensures transTo == "xsampa" ==> r == Some(Join(Tokens(str, IpaTable())))
    ensures transTo != "ipa" && transTo != "xsampa" ==> r == None
  {
    if transTo == "ipa" {
      var t := XsampaToIpaPhone(str, "_xsampa_and_diac2ipa");
      return Some(t);
    }
    if transTo == "xsampa" {
      var t := IpaToXsampaPhone(str, "_ipa2xsampa");
      return Some(t);
    }
    return None;
  }

  /** `xsampa2ipa('p\\', language)` is `ɸ`, produced as one translated
      token. */
  lemma BilabialFricativeToIpa()
    ensures Tokens("p\\", XsampaTable()) == ["ɸ"] && Flags("p\\", XsampaTable()) == [true]
    ensures Join(Tokens("p\\", XsampaTable())) == "ɸ"
  {
    BilabialEntries();
    WholeKey("p\\", XsampaTable());
  }

  /** Joining the one-character tokens of a string gives the string back. */
  lemma {:induction false} JoinCharacters(s: string)
    ensures Join(seq(|s|, i requires 0 <= i < |s| => [s[i]])) == s
  {
    if s != [] {
      var n := |s| - 1;
      var tl := seq(|s|, i requires 0 <= i < |s| => [s[i]]);
      assert tl[..n] == seq(n, i requires 0 <= i < n => [s[..n][i]]);
      JoinCharacters(s[..n]);
      assert s == s[..n] + [s[n]];
    }
  }

  /** A string with no key of the table in it comes back unchanged from
      either adapter, every character flagged untranslated. */
  lemma UntranslatableUnchanged(x: string, d: map<string, string>)
    requires forall a, b :: 0 <= a < b <= |x| ==> x[a..b] !in d
    ensures Join(Tokens(x, d)) == x
    ensures forall i :: 0 <= i < |Flags(x, d)| ==> !Flags(x, d)[i]
  {
    NoKeys(x, d);
    JoinCharacters(x);
  }
}

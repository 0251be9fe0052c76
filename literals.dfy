/** The two literal tables of IPAtranslate.py, pair by pair in source order,
    values exactly as written there (the dotted circle U+25CC stands before
    each combining mark).  Each literal is split into runs of about 26 lines,
    named after the source lines they hold, so that facts about one run can
    be checked by the verifier without unfolding the whole table. */
module XsampaLiterals {

  type Pairs = seq<(string, string)>
  /** Base phones, IPAtranslate.py lines 26-51. */
  const BaseLines26To51: Pairs := [
    ("#", "#"),
    ("=", "◌̩"),
    (">", "◌ʼ"),
    ("`", "◌˞"),
    ("~", "◌̃"),
    ("a", "a"),
    ("b", "b"),
    ("b_<", "ɓ"),
    ("c", "c"),
    ("d", "d"),
    ("d`", "ɖ"),
    ("d_<", "ɗ"),
    ("e", "e"),
    ("f", "f"),
    ("g", "ɡ"),
    ("g_<", "ɠ"),
    ("h", "h"),
    ("h\\", "ɦ"),
    ("i", "i"),
    ("j", "j"),
    ("j\\", "ʝ"),
    ("k", "k"),
    ("l", "l"),
    ("l`", "ɭ"),
    ("l\\", "ɺ"),
    ("m", "m")
  ]

  /** Base phones, IPAtranslate.py lines 52-77. */
  const BaseLines52To77: Pairs := [
    ("n", "n"),
    ("n_d", "nd"),
    ("n`", "ɳ"),
    ("o", "o"),
    ("p", "p"),
    ("p\\", "ɸ"),
    ("p_<", "ɓ̥"),
    ("q", "q"),
    ("r", "r"),
    ("r`", "ɽ"),
    ("r\\", "ɹ"),
    ("r\\`", "ɻ"),
    ("s", "s"),
    ("s`", "ʂ"),
    ("s\\", "ɕ"),
    ("t", "t"),
    ("t`", "ʈ"),
    ("u", "u"),
    ("v", "v"),
    ("v\\", "ʋ"),
    ("w", "w"),
    ("x", "x"),
    ("x\\", "ɧ"),
    ("y", "y"),
    ("z", "z"),
    ("z`", "ʐ")
  ]

  /** Base phones, IPAtranslate.py lines 78-103. */
  const BaseLines78To103: Pairs := [
    ("z\\", "ʑ"),
    ("A", "ɑ"),
    ("B", "β"),
    ("B\\", "ʙ"),
    ("C", "ç"),
    ("D", "ð"),
    ("E", "ɛ"),
    ("F", "ɱ"),
    ("G", "ɣ"),
    ("G\\", "ɢ"),
    ("G\\_<", "ʛ"),
    ("H", "ɥ"),
    ("H\\", "ʜ"),
    ("I", "ɪ"),
    ("I\\", "ɪ̈ "),
    ("J", "ɲ"),
    ("J\\", "ɟ"),
    ("J\\_<", "ʄ"),
    ("K", "ɬ"),
    ("K\\", "ɮ"),
    ("L", "ʎ"),
    ("L\\", "ʟ"),
    ("M", "ɯ"),
    ("M\\", "ɰ"),
    ("N", "ŋ"),
    ("N_g", "ŋɡ")
  ]

  /** Base phones, IPAtranslate.py lines 104-129. */
  const BaseLines104To129: Pairs := [
    ("N\\", "ɴ"),
    ("O", "ɔ"),
    ("O\\", "ʘ"),
    ("P", "ʋ"),
    ("Q", "ɒ"),
    ("R", "ʁ"),
    ("R\\", "ʀ"),
    ("S", "ʃ"),
    ("T", "θ"),
    ("U", "ʊ"),
    ("U\\", "ʊ̈ "),
    ("V", "ʌ"),
    ("W", "ʍ"),
    ("X", "χ"),
    ("X\\", "ħ"),
    ("Y", "ʏ"),
    ("Z", "ʒ"),
    (".", "."),
    ("\"", "ˈ"),
    ("%", "ˌ"),
    ("'", "ʲ"),
    (":", "ː"),
    (":\\", "ˑ"),
    ("-", ""),
    ("@", "ə"),
    ("@\\", "ɘ")
  ]

  /** Base phones, IPAtranslate.py lines 130-157. */
  const BaseLines130To157: Pairs := [
    ("{", "æ"),
    ("}", "ʉ"),
    ("1", "ɨ"),
    ("2", "ø"),
    ("3", "ɜ"),
    ("3\\", "ɞ"),
    ("4", "ɾ"),
    ("5", "ɫ"),
    ("6", "ɐ"),
    ("7", "ɤ"),
    ("8", "ɵ"),
    ("9", "œ"),
    ("&", "ɶ"),
    ("?", "ʔ"),
    ("?\\", "ʕ"),
    ("*", ""),
    ("/", ""),
    ("<\\", "ʢ"),
    (">\\", "ʡ"),
    ("^", "ꜛ"),
    ("!", "ꜜ"),
    ("!\\", "ǃ"),
    ("|", "|"),
    ("|\\", "ǀ"),
    ("||", "‖"),
    ("|\\|\\", "ǁ"),
    ("=\\", "ǂ"),
    ("-\\", "‿")
  ]

  /** Diacritics, IPAtranslate.py lines 165-189. */
  const DiacriticLines165To189: Pairs := [
    ("\"", "◌̈"),
    ("+", "◌̟"),
    ("-", "◌̠"),
    ("/", "◌̌"),
    ("0", "◌̥"),
    ("=", "◌̩"),
    (">", "◌ʼ"),
    ("?\\", "◌ˤ"),
    ("\\", "◌̂"),
    ("^", "◌̯"),
    ("}", "◌̚"),
    ("`", "◌˞"),
    ("~", "◌̃"),
    ("A", "◌̘"),
    ("a", "◌̺"),
    ("B", "◌̏"),
    ("B_L", "◌᷅"),
    ("c", "◌̜"),
    ("d", "◌̪"),
    ("e", "◌̴"),
    ("F", "◌̂"),
    ("G", "◌ˠ"),
    ("H", "◌́"),
    ("H_T", "◌᷄"),
    ("h", "◌ʰ")
  ]

  /** Diacritics, IPAtranslate.py lines 190-214. */
  const DiacriticLines190To214: Pairs := [
    ("j", "◌ʲ"),
    ("k", "◌̰"),
    ("L", "◌̀"),
    ("l", "◌ˡ"),
    ("M", "◌̄"),
    ("m", "◌̻"),
    ("N", "◌̼"),
    ("n", "◌ⁿ"),
    ("O", "◌̹"),
    ("o", "◌̞"),
    ("q", "◌̙"),
    ("R", "◌̌"),
    ("R_F", "◌᷈"),
    ("r", "◌̝"),
    ("T", "◌̋"),
    ("t", "◌̤"),
    ("v", "◌̬"),
    ("w", "◌ʷ"),
    ("X", "◌̆"),
    ("x", "◌̽"),
    ("1", "˥"),
    ("2", "˦"),
    ("3", "˧"),
    ("4", "˨"),
    ("5", "˩")
  ]

  /** The literal of `_xsampa2ipa`, lines 26-157: one pair per line. */
  function BaseLiteral(): (r: Pairs)
    ensures |r| == 157 - 26 + 1
  {
    BaseLines26To51 + BaseLines52To77 + BaseLines78To103 + BaseLines104To129 + BaseLines130To157
  }

  /** The literal of `_xdiacritics2ipa`, lines 165-214: one pair per line. */
  function DiacriticLiteral(): (r: Pairs)
    ensures |r| == 214 - 165 + 1
  {
    DiacriticLines165To189 + DiacriticLines190To214
  }
}

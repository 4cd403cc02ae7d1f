/**
 * Every identifier of the test driver at the end of parse-locale-identifiers.c
 * with the verdict the driver expects from each parser, and the record the
 * parser returns, stated about the specification functions the two parse
 * methods are proved to compute. (The NULL identifier is covered by the
 * methods' own contracts.) Three more identifiers exercise the root branch
 * and the region test, which the driver does not reach. Each lemma is about
 * the one identifier its precondition names.
 */
module TestVectors {

  import opened Wrappers
  import opened CStrings
  import opened Locale
  import opened Gettext
  import opened UnicodeSubtags
  import opened Unicode

  /** A Gettext record is parsed from the identifier it is written as. */
  lemma GettextParsesTo(s: string, lc: LocaleChunks)
    requires IsGettextRecord(lc) && GettextForm(lc) == Some(s)
    ensures ParseGettext(s) == Some(lc)
  {
    GettextFormParses(lc);
  }

  /** A Unicode record is parsed from its subtags joined by either separator. */
  lemma UnicodeParsesTo(s: string, tags: seq<string>, sep: char, lc: LocaleChunks)
    requires IsSubtagSeparator(sep) && IsUnicodeRecord(lc) && RecordSubtags(lc) == tags
    requires |tags| > 0 && Joined(tags, sep) == s
    ensures ParseUnicode(s) == Some(lc)
  {
    RecordSubtagsAreAlnum(lc);
    SubtagsOfJoined(tags, sep);
    UnicodeParseComplete(s, lc);
  }

  /** An identifier holding a character that is neither alphanumeric nor a separator is refused by Unicode. */
  lemma UnicodeRefusesAt(s: string, p: nat)
    requires p < |s| && !IsTagChar(s[p])
    ensures ParseUnicode(s) == None
  {
    BadCharRefused(s, p);
  }

  /** The Gettext records the driver expects. */
  lemma DriverGettextRecord(lc: LocaleChunks)
    requires lc.language == Some("it") || lc.language == Some("Latn")
    requires lc.territory == None || lc.territory == Some("IT")
    requires lc.codeset == None || lc.codeset == Some("utf8")
    requires lc.modifier == None || lc.modifier == Some("euro")
    requires lc.script.None? && lc.variants == []
    ensures IsGettextRecord(lc)
  {
    assert AllAlnum("it") && AllAlnum("Latn") && AllAlnum("IT") && AllAlnum("utf8") && AllAlnum("euro");
  }

  /** The Unicode records the driver expects. */
  lemma DriverUnicodeRecord(lc: LocaleChunks)
    requires lc.codeset.None? && lc.modifier.None?
    requires lc.language == None || lc.language == Some("it")
    requires lc.script == None || lc.script == Some("Latn")
    requires lc.language.Some? || lc.script.Some?
    requires lc.territory == None || lc.territory == Some("IT")
    requires lc.variants == [] || lc.variants == ["POSIX"] || lc.variants == ["NYNORSK"] || lc.variants == ["POSIX", "NYNORSK"]
    ensures IsUnicodeRecord(lc)
  {
    assert AllAlnum("POSIX") && IsVariantSubtag("POSIX");
    assert AllAlnum("NYNORSK") && IsVariantSubtag("NYNORSK");
  }

  lemma JoinedOne(a: string, sep: char)
    ensures Joined([a], sep) == a
  {
    assert [a][1..] == [];
  }

  lemma JoinedTwo(a: string, b: string, sep: char)
    ensures Joined([a, b], sep) == a + [sep] + b
  {
    JoinedOne(a, sep);
    JoinedSnoc([a], b, sep);
    assert [a] + [b] == [a, b];
  }

  lemma JoinedThree(a: string, b: string, c: string, sep: char)
    ensures Joined([a, b, c], sep) == a + [sep] + b + [sep] + c
  {
    JoinedTwo(a, b, sep);
    JoinedSnoc([a, b], c, sep);
    assert [a, b] + [c] == [a, b, c];
  }

  lemma JoinedFour(a: string, b: string, c: string, d: string, sep: char)
    ensures Joined([a, b, c, d], sep) == a + [sep] + b + [sep] + c + [sep] + d
  {
    JoinedThree(a, b, c, sep);
    JoinedSnoc([a, b, c], d, sep);
    assert [a, b, c] + [d] == [a, b, c, d];
  }

  lemma JoinedFive(a: string, b: string, c: string, d: string, e: string, sep: char)
    ensures Joined([a, b, c, d, e], sep) == a + [sep] + b + [sep] + c + [sep] + d + [sep] + e
  {
    JoinedFour(a, b, c, d, sep);
    JoinedSnoc([a, b, c, d], e, sep);
    assert [a, b, c, d] + [e] == [a, b, c, d, e];
  }

  /** A Gettext identifier the driver expects, parsed to the record it is written from. */
  lemma GettextVector(language: Option<string>, territory: Option<string>, codeset: Option<string>, modifier: Option<string>, s: string)
    requires language == Some("it") || language == Some("Latn")
    requires territory == None || territory == Some("IT")
    requires codeset == None || codeset == Some("utf8")
    requires modifier == None || modifier == Some("euro")
    requires language.value + Part('_', territory) + Part('.', codeset) + Part('@', modifier) == s
    ensures ParseGettext(s) == Some(LocaleChunks(language, territory, codeset, modifier, None, []))
  {
    var lc := LocaleChunks(language, territory, codeset, modifier, None, []);
    DriverGettextRecord(lc);
    GettextParsesTo(s, lc);
  }

  /** A Unicode identifier the driver expects, parsed to the record whose subtags it joins. */
  lemma UnicodeVector(language: Option<string>, script: Option<string>, territory: Option<string>, variants: seq<string>,
                      tags: seq<string>, sep: char, s: string)
    requires IsSubtagSeparator(sep)
    requires language == None || language == Some("it")
    requires script == None || script == Some("Latn")
    requires language.Some? || script.Some?
    requires territory == None || territory == Some("IT")
    requires variants == [] || variants == ["POSIX"] || variants == ["NYNORSK"] || variants == ["POSIX", "NYNORSK"]
    requires tags == Opt(language) + Opt(script) + Opt(territory) + variants && |tags| > 0
    requires Joined(tags, sep) == s
    ensures ParseUnicode(s) == Some(LocaleChunks(language, territory, None, None, script, variants))
  {
    var lc := LocaleChunks(language, territory, None, None, script, variants);
    DriverUnicodeRecord(lc);
    UnicodeParsesTo(s, tags, sep, lc);
  }

  /** "it_IT.utf8@euro": accepted by Gettext, refused by Unicode. */
  lemma ItITUtf8Euro(s: string)
    requires s == "it_IT.utf8@euro"
    ensures ParseGettext(s) == Some(LocaleChunks(Some("it"), Some("IT"), Some("utf8"), Some("euro"), None, []))
    ensures ParseUnicode(s) == None
  {
    ItITUtf8EuroForm();
    GettextVector(Some("it"), Some("IT"), Some("utf8"), Some("euro"), s);
    UnicodeRefusesAt(s, 5);
  }

  lemma ItITUtf8EuroForm()
    ensures "it" + Part('_', Some("IT")) + Part('.', Some("utf8")) + Part('@', Some("euro")) == "it_IT.utf8@euro"
  {
    assert Part('_', Some("IT")) == "_IT" && Part('.', Some("utf8")) == ".utf8" && Part('@', Some("euro")) == "@euro";
    assert "it" + "_IT" + ".utf8" + "@euro" == "it_IT.utf8@euro";
  }

  /** "it_IT.utf8": accepted by Gettext, refused by Unicode. */
  lemma ItITUtf8(s: string)
    requires s == "it_IT.utf8"
    ensures ParseGettext(s) == Some(LocaleChunks(Some("it"), Some("IT"), Some("utf8"), None, None, []))
    ensures ParseUnicode(s) == None
  {
    ItITUtf8Form();
    GettextVector(Some("it"), Some("IT"), Some("utf8"), None, s);
    UnicodeRefusesAt(s, 5);
  }

  lemma ItITUtf8Form()
    ensures "it" + Part('_', Some("IT")) + Part('.', Some("utf8")) + Part('@', None) == "it_IT.utf8"
  {
    assert Part('_', Some("IT")) == "_IT" && Part('.', Some("utf8")) == ".utf8" && Part('@', None) == "";
    assert "it" + "_IT" + ".utf8" + "" == "it_IT.utf8";
  }

  /** "it_IT@euro": accepted by Gettext, refused by Unicode. */
  lemma ItITEuro(s: string)
    requires s == "it_IT@euro"
    ensures ParseGettext(s) == Some(LocaleChunks(Some("it"), Some("IT"), None, Some("euro"), None, []))
    ensures ParseUnicode(s) == None
  {
    ItITEuroForm();
    GettextVector(Some("it"), Some("IT"), None, Some("euro"), s);
    UnicodeRefusesAt(s, 5);
  }

  lemma ItITEuroForm()
    ensures "it" + Part('_', Some("IT")) + Part('.', None) + Part('@', Some("euro")) == "it_IT@euro"
  {
    assert Part('_', Some("IT")) == "_IT" && Part('.', None) == "" && Part('@', Some("euro")) == "@euro";
    assert "it" + "_IT" + "" + "@euro" == "it_IT@euro";
  }

  /** "it@euro": accepted by Gettext, refused by Unicode. */
  lemma ItEuro(s: string)
    requires s == "it@euro"
    ensures ParseGettext(s) == Some(LocaleChunks(Some("it"), None, None, Some("euro"), None, []))
    ensures ParseUnicode(s) == None
  {
    ItEuroForm();
    GettextVector(Some("it"), None, None, Some("euro"), s);
    UnicodeRefusesAt(s, 2);
  }

  lemma ItEuroForm()
    ensures "it" + Part('_', None) + Part('.', None) + Part('@', Some("euro")) == "it@euro"
  {
    assert Part('_', None) == "" && Part('.', None) == "" && Part('@', Some("euro")) == "@euro";
    assert "it" + "" + "" + "@euro" == "it@euro";
  }

  /** "it.utf8": accepted by Gettext, refused by Unicode. */
  lemma ItUtf8(s: string)
    requires s == "it.utf8"
    ensures ParseGettext(s) == Some(LocaleChunks(Some("it"), None, Some("utf8"), None, None, []))
    ensures ParseUnicode(s) == None
  {
    ItUtf8Form();
    GettextVector(Some("it"), None, Some("utf8"), None, s);
    UnicodeRefusesAt(s, 2);
  }

  lemma ItUtf8Form()
    ensures "it" + Part('_', None) + Part('.', Some("utf8")) + Part('@', None) == "it.utf8"
  {
    assert Part('_', None) == "" && Part('.', Some("utf8")) == ".utf8" && Part('@', None) == "";
    assert "it" + "" + ".utf8" + "" == "it.utf8";
  }

  /** "it_IT": accepted by both parsers. */
  lemma ItIT(s: string)
    requires s == "it_IT"
    ensures ParseGettext(s) == Some(LocaleChunks(Some("it"), Some("IT"), None, None, None, []))
    ensures ParseUnicode(s) == Some(LocaleChunks(Some("it"), Some("IT"), None, None, None, []))
  {
    ItITForm();
    GettextVector(Some("it"), Some("IT"), None, None, s);
    ItITText();
    UnicodeVector(Some("it"), None, Some("IT"), [], ["it", "IT"], '_', s);
  }

  lemma ItITForm()
    ensures "it" + Part('_', Some("IT")) + Part('.', None) + Part('@', None) == "it_IT"
  {
    assert Part('_', Some("IT")) == "_IT" && Part('.', None) == "" && Part('@', None) == "";
    assert "it" + "_IT" + "" + "" == "it_IT";
  }

  lemma ItITText()
    ensures Joined(["it", "IT"], '_') == "it_IT"
  {
    JoinedTwo("it", "IT", '_');
    assert "it" + "_" + "IT" == "it_IT";
  }

  /** "it": accepted by both parsers. */
  lemma It(s: string)
    requires s == "it"
    ensures ParseGettext(s) == Some(LocaleChunks(Some("it"), None, None, None, None, []))
    ensures ParseUnicode(s) == Some(LocaleChunks(Some("it"), None, None, None, None, []))
  {
    ItForm();
    GettextVector(Some("it"), None, None, None, s);
    JoinedOne("it", '-');
    UnicodeVector(Some("it"), None, None, [], ["it"], '-', s);
  }

  lemma ItForm()
    ensures "it" + Part('_', None) + Part('.', None) + Part('@', None) == "it"
  {
    assert Part('_', None) == "" && Part('.', None) == "" && Part('@', None) == "";
    assert "it" + "" + "" + "" == "it";
  }

  /** "it-Latn-IT-POSIX-NYNORSK": refused by Gettext, accepted by Unicode. */
  lemma DashedItLatnITPosixNynorsk(s: string)
    requires s == "it-Latn-IT-POSIX-NYNORSK"
    ensures ParseGettext(s) == None
    ensures ParseUnicode(s) == Some(LocaleChunks(Some("it"), Some("IT"), None, None, Some("Latn"), ["POSIX", "NYNORSK"]))
  {
    GettextRejectsMalformed(s, 2);
    DashedItLatnITPosixNynorskText();
    UnicodeVector(Some("it"), Some("Latn"), Some("IT"), ["POSIX", "NYNORSK"], ["it", "Latn", "IT", "POSIX", "NYNORSK"], '-', s);
  }

  lemma DashedItLatnITPosixNynorskText()
    ensures Joined(["it", "Latn", "IT", "POSIX", "NYNORSK"], '-') == "it-Latn-IT-POSIX-NYNORSK"
  {
    JoinedFive("it", "Latn", "IT", "POSIX", "NYNORSK", '-');
    assert "it" + "-" + "Latn" + "-" + "IT" + "-" + "POSIX" + "-" + "NYNORSK" == "it-Latn-IT-POSIX-NYNORSK";
  }

  /** "it-Latn-IT-POSIX": refused by Gettext, accepted by Unicode. */
  lemma DashedItLatnITPosix(s: string)
    requires s == "it-Latn-IT-POSIX"
    ensures ParseGettext(s) == None
    ensures ParseUnicode(s) == Some(LocaleChunks(Some("it"), Some("IT"), None, None, Some("Latn"), ["POSIX"]))
  {
    GettextRejectsMalformed(s, 2);
    DashedItLatnITPosixText();
    UnicodeVector(Some("it"), Some("Latn"), Some("IT"), ["POSIX"], ["it", "Latn", "IT", "POSIX"], '-', s);
  }

  lemma DashedItLatnITPosixText()
    ensures Joined(["it", "Latn", "IT", "POSIX"], '-') == "it-Latn-IT-POSIX"
  {
    JoinedFour("it", "Latn", "IT", "POSIX", '-');
    assert "it" + "-" + "Latn" + "-" + "IT" + "-" + "POSIX" == "it-Latn-IT-POSIX";
  }

  /** "it-Latn-IT-NYNORSK": refused by Gettext, accepted by Unicode. */
  lemma DashedItLatnITNynorsk(s: string)
    requires s == "it-Latn-IT-NYNORSK"
    ensures ParseGettext(s) == None
    ensures ParseUnicode(s) == Some(LocaleChunks(Some("it"), Some("IT"), None, None, Some("Latn"), ["NYNORSK"]))
  {
    GettextRejectsMalformed(s, 2);
    DashedItLatnITNynorskText();
    UnicodeVector(Some("it"), Some("Latn"), Some("IT"), ["NYNORSK"], ["it", "Latn", "IT", "NYNORSK"], '-', s);
  }

  lemma DashedItLatnITNynorskText()
    ensures Joined(["it", "Latn", "IT", "NYNORSK"], '-') == "it-Latn-IT-NYNORSK"
  {
    JoinedFour("it", "Latn", "IT", "NYNORSK", '-');
    assert "it" + "-" + "Latn" + "-" + "IT" + "-" + "NYNORSK" == "it-Latn-IT-NYNORSK";
  }

  /** "it-Latn-IT": refused by Gettext, accepted by Unicode. */
  lemma DashedItLatnIT(s: string)
    requires s == "it-Latn-IT"
    ensures ParseGettext(s) == None
    ensures ParseUnicode(s) == Some(LocaleChunks(Some("it"), Some("IT"), None, None, Some("Latn"), []))
  {
    GettextRejectsMalformed(s, 2);
    DashedItLatnITText();
    UnicodeVector(Some("it"), Some("Latn"), Some("IT"), [], ["it", "Latn", "IT"], '-', s);
  }

  lemma DashedItLatnITText()
    ensures Joined(["it", "Latn", "IT"], '-') == "it-Latn-IT"
  {
    JoinedThree("it", "Latn", "IT", '-');
    assert "it" + "-" + "Latn" + "-" + "IT" == "it-Latn-IT";
  }

  /** "it-Latn-POSIX-NYNORSK": refused by Gettext, accepted by Unicode. */
  lemma DashedItLatnPosixNynorsk(s: string)
    requires s == "it-Latn-POSIX-NYNORSK"
    ensures ParseGettext(s) == None
    ensures ParseUnicode(s) == Some(LocaleChunks(Some("it"), None, None, None, Some("Latn"), ["POSIX", "NYNORSK"]))
  {
    GettextRejectsMalformed(s, 2);
    DashedItLatnPosixNynorskText();
    UnicodeVector(Some("it"), Some("Latn"), None, ["POSIX", "NYNORSK"], ["it", "Latn", "POSIX", "NYNORSK"], '-', s);
  }

  lemma DashedItLatnPosixNynorskText()
    ensures Joined(["it", "Latn", "POSIX", "NYNORSK"], '-') == "it-Latn-POSIX-NYNORSK"
  {
    JoinedFour("it", "Latn", "POSIX", "NYNORSK", '-');
    assert "it" + "-" + "Latn" + "-" + "POSIX" + "-" + "NYNORSK" == "it-Latn-POSIX-NYNORSK";
  }

  /** "it-Latn-POSIX": refused by Gettext, accepted by Unicode. */
  lemma DashedItLatnPosix(s: string)
    requires s == "it-Latn-POSIX"
    ensures ParseGettext(s) == None
    ensures ParseUnicode(s) == Some(LocaleChunks(Some("it"), None, None, None, Some("Latn"), ["POSIX"]))
  {
    GettextRejectsMalformed(s, 2);
    DashedItLatnPosixText();
    UnicodeVector(Some("it"), Some("Latn"), None, ["POSIX"], ["it", "Latn", "POSIX"], '-', s);
  }

  lemma DashedItLatnPosixText()
    ensures Joined(["it", "Latn", "POSIX"], '-') == "it-Latn-POSIX"
  {
    JoinedThree("it", "Latn", "POSIX", '-');
    assert "it" + "-" + "Latn" + "-" + "POSIX" == "it-Latn-POSIX";
  }

  /** "it-Latn-NYNORSK": refused by Gettext, accepted by Unicode. */
  lemma DashedItLatnNynorsk(s: string)
    requires s == "it-Latn-NYNORSK"
    ensures ParseGettext(s) == None
    ensures ParseUnicode(s) == Some(LocaleChunks(Some("it"), None, None, None, Some("Latn"), ["NYNORSK"]))
  {
    GettextRejectsMalformed(s, 2);
    DashedItLatnNynorskText();
    UnicodeVector(Some("it"), Some("Latn"), None, ["NYNORSK"], ["it", "Latn", "NYNORSK"], '-', s);
  }

  lemma DashedItLatnNynorskText()
    ensures Joined(["it", "Latn", "NYNORSK"], '-') == "it-Latn-NYNORSK"
  {
    JoinedThree("it", "Latn", "NYNORSK", '-');
    assert "it" + "-" + "Latn" + "-" + "NYNORSK" == "it-Latn-NYNORSK";
  }

  /** "it-Latn": refused by Gettext, accepted by Unicode. */
  lemma DashedItLatn(s: string)
    requires s == "it-Latn"
    ensures ParseGettext(s) == None
    ensures ParseUnicode(s) == Some(LocaleChunks(Some("it"), None, None, None, Some("Latn"), []))
  {
    GettextRejectsMalformed(s, 2);
    DashedItLatnText();
    UnicodeVector(Some("it"), Some("Latn"), None, [], ["it", "Latn"], '-', s);
  }

  lemma DashedItLatnText()
    ensures Joined(["it", "Latn"], '-') == "it-Latn"
  {
    JoinedTwo("it", "Latn", '-');
    assert "it" + "-" + "Latn" == "it-Latn";
  }

  /** "it-IT-POSIX-NYNORSK": refused by Gettext, accepted by Unicode. */
  lemma DashedItITPosixNynorsk(s: string)
    requires s == "it-IT-POSIX-NYNORSK"
    ensures ParseGettext(s) == None
    ensures ParseUnicode(s) == Some(LocaleChunks(Some("it"), Some("IT"), None, None, None, ["POSIX", "NYNORSK"]))
  {
    GettextRejectsMalformed(s, 2);
    DashedItITPosixNynorskText();
    UnicodeVector(Some("it"), None, Some("IT"), ["POSIX", "NYNORSK"], ["it", "IT", "POSIX", "NYNORSK"], '-', s);
  }

  lemma DashedItITPosixNynorskText()
    ensures Joined(["it", "IT", "POSIX", "NYNORSK"], '-') == "it-IT-POSIX-NYNORSK"
  {
    JoinedFour("it", "IT", "POSIX", "NYNORSK", '-');
    assert "it" + "-" + "IT" + "-" + "POSIX" + "-" + "NYNORSK" == "it-IT-POSIX-NYNORSK";
  }

  /** "it-IT-POSIX": refused by Gettext, accepted by Unicode. */
  lemma DashedItITPosix(s: string)
    requires s == "it-IT-POSIX"
    ensures ParseGettext(s) == None
    ensures ParseUnicode(s) == Some(LocaleChunks(Some("it"), Some("IT"), None, None, None, ["POSIX"]))
  {
    GettextRejectsMalformed(s, 2);
    DashedItITPosixText();
    UnicodeVector(Some("it"), None, Some("IT"), ["POSIX"], ["it", "IT", "POSIX"], '-', s);
  }

  lemma DashedItITPosixText()
    ensures Joined(["it", "IT", "POSIX"], '-') == "it-IT-POSIX"
  {
    JoinedThree("it", "IT", "POSIX", '-');
    assert "it" + "-" + "IT" + "-" + "POSIX" == "it-IT-POSIX";
  }

  /** "it-IT-NYNORSK": refused by Gettext, accepted by Unicode. */
  lemma DashedItITNynorsk(s: string)
    requires s == "it-IT-NYNORSK"
    ensures ParseGettext(s) == None
    ensures ParseUnicode(s) == Some(LocaleChunks(Some("it"), Some("IT"), None, None, None, ["NYNORSK"]))
  {
    GettextRejectsMalformed(s, 2);
    DashedItITNynorskText();
    UnicodeVector(Some("it"), None, Some("IT"), ["NYNORSK"], ["it", "IT", "NYNORSK"], '-', s);
  }

  lemma DashedItITNynorskText()
    ensures Joined(["it", "IT", "NYNORSK"], '-') == "it-IT-NYNORSK"
  {
    JoinedThree("it", "IT", "NYNORSK", '-');
    assert "it" + "-" + "IT" + "-" + "NYNORSK" == "it-IT-NYNORSK";
  }

  /** "it-IT": refused by Gettext, accepted by Unicode. */
  lemma DashedItIT(s: string)
    requires s == "it-IT"
    ensures ParseGettext(s) == None
    ensures ParseUnicode(s) == Some(LocaleChunks(Some("it"), Some("IT"), None, None, None, []))
  {
    GettextRejectsMalformed(s, 2);
    DashedItITText();
    UnicodeVector(Some("it"), None, Some("IT"), [], ["it", "IT"], '-', s);
  }

  lemma DashedItITText()
    ensures Joined(["it", "IT"], '-') == "it-IT"
  {
    JoinedTwo("it", "IT", '-');
    assert "it" + "-" + "IT" == "it-IT";
  }

  /** "it-POSIX-NYNORSK": refused by Gettext, accepted by Unicode. */
  lemma DashedItPosixNynorsk(s: string)
    requires s == "it-POSIX-NYNORSK"
    ensures ParseGettext(s) == None
    ensures ParseUnicode(s) == Some(LocaleChunks(Some("it"), None, None, None, None, ["POSIX", "NYNORSK"]))
  {
    GettextRejectsMalformed(s, 2);
    DashedItPosixNynorskText();
    UnicodeVector(Some("it"), None, None, ["POSIX", "NYNORSK"], ["it", "POSIX", "NYNORSK"], '-', s);
  }

  lemma DashedItPosixNynorskText()
    ensures Joined(["it", "POSIX", "NYNORSK"], '-') == "it-POSIX-NYNORSK"
  {
    JoinedThree("it", "POSIX", "NYNORSK", '-');
    assert "it" + "-" + "POSIX" + "-" + "NYNORSK" == "it-POSIX-NYNORSK";
  }

  /** "it-POSIX": refused by Gettext, accepted by Unicode. */
  lemma DashedItPosix(s: string)
    requires s == "it-POSIX"
    ensures ParseGettext(s) == None
    ensures ParseUnicode(s) == Some(LocaleChunks(Some("it"), None, None, None, None, ["POSIX"]))
  {
    GettextRejectsMalformed(s, 2);
    DashedItPosixText();
    UnicodeVector(Some("it"), None, None, ["POSIX"], ["it", "POSIX"], '-', s);
  }

  lemma DashedItPosixText()
    ensures Joined(["it", "POSIX"], '-') == "it-POSIX"
  {
    JoinedTwo("it", "POSIX", '-');
    assert "it" + "-" + "POSIX" == "it-POSIX";
  }

  /** "it-NYNORSK": refused by Gettext, accepted by Unicode. */
  lemma DashedItNynorsk(s: string)
    requires s == "it-NYNORSK"
    ensures ParseGettext(s) == None
    ensures ParseUnicode(s) == Some(LocaleChunks(Some("it"), None, None, None, None, ["NYNORSK"]))
  {
    GettextRejectsMalformed(s, 2);
    DashedItNynorskText();
    UnicodeVector(Some("it"), None, None, ["NYNORSK"], ["it", "NYNORSK"], '-', s);
  }

  lemma DashedItNynorskText()
    ensures Joined(["it", "NYNORSK"], '-') == "it-NYNORSK"
  {
    JoinedTwo("it", "NYNORSK", '-');
    assert "it" + "-" + "NYNORSK" == "it-NYNORSK";
  }

  /** "Latn-IT-POSIX-NYNORSK": refused by Gettext, accepted by Unicode. */
  lemma DashedLatnITPosixNynorsk(s: string)
    requires s == "Latn-IT-POSIX-NYNORSK"
    ensures ParseGettext(s) == None
    ensures ParseUnicode(s) == Some(LocaleChunks(None, Some("IT"), None, None, Some("Latn"), ["POSIX", "NYNORSK"]))
  {
    GettextRejectsMalformed(s, 4);
    DashedLatnITPosixNynorskText();
    UnicodeVector(None, Some("Latn"), Some("IT"), ["POSIX", "NYNORSK"], ["Latn", "IT", "POSIX", "NYNORSK"], '-', s);
  }

  lemma DashedLatnITPosixNynorskText()
    ensures Joined(["Latn", "IT", "POSIX", "NYNORSK"], '-') == "Latn-IT-POSIX-NYNORSK"
  {
    JoinedFour("Latn", "IT", "POSIX", "NYNORSK", '-');
    assert "Latn" + "-" + "IT" + "-" + "POSIX" + "-" + "NYNORSK" == "Latn-IT-POSIX-NYNORSK";
  }

  /** "Latn-IT-POSIX": refused by Gettext, accepted by Unicode. */
  lemma DashedLatnITPosix(s: string)
    requires s == "Latn-IT-POSIX"
    ensures ParseGettext(s) == None
    ensures ParseUnicode(s) == Some(LocaleChunks(None, Some("IT"), None, None, Some("Latn"), ["POSIX"]))
  {
    GettextRejectsMalformed(s, 4);
    DashedLatnITPosixText();
    UnicodeVector(None, Some("Latn"), Some("IT"), ["POSIX"], ["Latn", "IT", "POSIX"], '-', s);
  }

  lemma DashedLatnITPosixText()
    ensures Joined(["Latn", "IT", "POSIX"], '-') == "Latn-IT-POSIX"
  {
    JoinedThree("Latn", "IT", "POSIX", '-');
    assert "Latn" + "-" + "IT" + "-" + "POSIX" == "Latn-IT-POSIX";
  }

  /** "Latn-IT-NYNORSK": refused by Gettext, accepted by Unicode. */
  lemma DashedLatnITNynorsk(s: string)
    requires s == "Latn-IT-NYNORSK"
    ensures ParseGettext(s) == None
    ensures ParseUnicode(s) == Some(LocaleChunks(None, Some("IT"), None, None, Some("Latn"), ["NYNORSK"]))
  {
    GettextRejectsMalformed(s, 4);
    DashedLatnITNynorskText();
    UnicodeVector(None, Some("Latn"), Some("IT"), ["NYNORSK"], ["Latn", "IT", "NYNORSK"], '-', s);
  }

  lemma DashedLatnITNynorskText()
    ensures Joined(["Latn", "IT", "NYNORSK"], '-') == "Latn-IT-NYNORSK"
  {
    JoinedThree("Latn", "IT", "NYNORSK", '-');
    assert "Latn" + "-" + "IT" + "-" + "NYNORSK" == "Latn-IT-NYNORSK";
  }

  /** "Latn-IT": refused by Gettext, accepted by Unicode. */
  lemma DashedLatnIT(s: string)
    requires s == "Latn-IT"
    ensures ParseGettext(s) == None
    ensures ParseUnicode(s) == Some(LocaleChunks(None, Some("IT"), None, None, Some("Latn"), []))
  {
    GettextRejectsMalformed(s, 4);
    DashedLatnITText();
    UnicodeVector(None, Some("Latn"), Some("IT"), [], ["Latn", "IT"], '-', s);
  }

  lemma DashedLatnITText()
    ensures Joined(["Latn", "IT"], '-') == "Latn-IT"
  {
    JoinedTwo("Latn", "IT", '-');
    assert "Latn" + "-" + "IT" == "Latn-IT";
  }

  /** "Latn-POSIX-NYNORSK": refused by Gettext, accepted by Unicode. */
  lemma DashedLatnPosixNynorsk(s: string)
    requires s == "Latn-POSIX-NYNORSK"
    ensures ParseGettext(s) == None
    ensures ParseUnicode(s) == Some(LocaleChunks(None, None, None, None, Some("Latn"), ["POSIX", "NYNORSK"]))
  {
    GettextRejectsMalformed(s, 4);
    DashedLatnPosixNynorskText();
    UnicodeVector(None, Some("Latn"), None, ["POSIX", "NYNORSK"], ["Latn", "POSIX", "NYNORSK"], '-', s);
  }

  lemma DashedLatnPosixNynorskText()
    ensures Joined(["Latn", "POSIX", "NYNORSK"], '-') == "Latn-POSIX-NYNORSK"
  {
    JoinedThree("Latn", "POSIX", "NYNORSK", '-');
    assert "Latn" + "-" + "POSIX" + "-" + "NYNORSK" == "Latn-POSIX-NYNORSK";
  }

  /** "Latn-POSIX": refused by Gettext, accepted by Unicode. */
  lemma DashedLatnPosix(s: string)
    requires s == "Latn-POSIX"
    ensures ParseGettext(s) == None
    ensures ParseUnicode(s) == Some(LocaleChunks(None, None, None, None, Some("Latn"), ["POSIX"]))
  {
    GettextRejectsMalformed(s, 4);
    DashedLatnPosixText();
    UnicodeVector(None, Some("Latn"), None, ["POSIX"], ["Latn", "POSIX"], '-', s);
  }

  lemma DashedLatnPosixText()
    ensures Joined(["Latn", "POSIX"], '-') == "Latn-POSIX"
  {
    JoinedTwo("Latn", "POSIX", '-');
    assert "Latn" + "-" + "POSIX" == "Latn-POSIX";
  }

  /** "Latn-NYNORSK": refused by Gettext, accepted by Unicode. */
  lemma DashedLatnNynorsk(s: string)
    requires s == "Latn-NYNORSK"
    ensures ParseGettext(s) == None
    ensures ParseUnicode(s) == Some(LocaleChunks(None, None, None, None, Some("Latn"), ["NYNORSK"]))
  {
    GettextRejectsMalformed(s, 4);
    DashedLatnNynorskText();
    UnicodeVector(None, Some("Latn"), None, ["NYNORSK"], ["Latn", "NYNORSK"], '-', s);
  }

  lemma DashedLatnNynorskText()
    ensures Joined(["Latn", "NYNORSK"], '-') == "Latn-NYNORSK"
  {
    JoinedTwo("Latn", "NYNORSK", '-');
    assert "Latn" + "-" + "NYNORSK" == "Latn-NYNORSK";
  }

  /** "Latn": accepted by both parsers. */
  lemma Latn(s: string)
    requires s == "Latn"
    ensures ParseGettext(s) == Some(LocaleChunks(Some("Latn"), None, None, None, None, []))
    ensures ParseUnicode(s) == Some(LocaleChunks(None, None, None, None, Some("Latn"), []))
  {
    LatnForm();
    GettextVector(Some("Latn"), None, None, None, s);
    JoinedOne("Latn", '-');
    UnicodeVector(None, Some("Latn"), None, [], ["Latn"], '-', s);
  }

  lemma LatnForm()
    ensures "Latn" + Part('_', None) + Part('.', None) + Part('@', None) == "Latn"
  {
    assert Part('_', None) == "" && Part('.', None) == "" && Part('@', None) == "";
    assert "Latn" + "" + "" + "" == "Latn";
  }

  /** "": refused by both parsers. */
  lemma EmptyID(s: string)
    requires s == ""
    ensures ParseGettext(s) == None && ParseUnicode(s) == None
  {
    GettextAcceptance(s);
  }

  /** " ": refused by both parsers. */
  lemma SpaceID(s: string)
    requires s == " "
    ensures ParseGettext(s) == None && ParseUnicode(s) == None
  {
    GettextRejectsMalformed(s, 0);
    UnicodeRefusesAt(s, 0);
  }

  /** "  ": refused by both parsers. */
  lemma TwoSpacesID(s: string)
    requires s == "  "
    ensures ParseGettext(s) == None && ParseUnicode(s) == None
  {
    GettextRejectsMalformed(s, 0);
    UnicodeRefusesAt(s, 0);
  }

  /** "foo@bar@baz": refused by both parsers (a duplicated modifier; '@' is no subtag separator). */
  lemma FooBarBazID(s: string)
    requires s == "foo@bar@baz"
    ensures ParseGettext(s) == None && ParseUnicode(s) == None
  {
    GettextRejectsMisplaced(s, 3, 7);
    UnicodeRefusesAt(s, 3);
  }

  /** "root-IT", not in the driver: root is kept as the language. */
  lemma RootWithRegionID(s: string)
    requires s == "root-IT"
    ensures ParseUnicode(s) == Some(LocaleChunks(Some("root"), Some("IT"), None, None, None, []))
  {
    var lc := LocaleChunks(Some("root"), Some("IT"), None, None, None, []);
    JoinedTwo("root", "IT", '-');
    assert "root" + "-" + "IT" == "root-IT";
    UnicodeParsesTo(s, ["root", "IT"], '-', lc);
  }

  /** "root-Latn", not in the driver: refused, as root takes no script and "Latn" fails the 4-character variant test. */
  lemma RootWithScriptID(s: string)
    requires s == "root-Latn"
    ensures ParseUnicode(s) == None
  {
    var tags := ["root", "Latn"];
    SubtagsOfJoined(tags, '-');
    JoinedTwo("root", "Latn", '-');
    assert "root" + "-" + "Latn" == "root-Latn";
    var head := ConstructLocaleChunks().(language := Some("root"));
    assert ClassifyHead(tags) == Some((head, 1));
    assert ClassifyRegion(tags, head, 1) == Some((head, 1));
    assert !IsVariantSubtag(tags[1]);
  }

  /** "es-419", not in the driver: the three-digit region of the standard is refused. */
  lemma NumericRegionID(s: string)
    requires s == "es-419"
    ensures ParseUnicode(s) == None
  {
    var tags := ["es", "419"];
    SubtagsOfJoined(tags, '-');
    JoinedTwo("es", "419", '-');
    assert "es" + "-" + "419" == "es-419";
    var head := ConstructLocaleChunks().(language := Some("es"));
    HeadLanguageOnly(tags, "es");
    assert ClassifyRegion(tags, head, 1) == None;
  }
}

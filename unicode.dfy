/**
 * The Unicode form: subtags classified by position as language (or root),
 * script, region and variants, as the C code classifies them (a loose
 * reading of the unicode_language_id grammar of Unicode Technical Standard
 * #35, section 3.1); and the underscore-joined form the serializer writes.
 */
module Unicode {

  import opened Wrappers
  import opened CStrings
  import opened Locale
  import opened UnicodeSubtags

  /** alpha{2,3} */
  predicate IsLanguageSubtag(t: string) {
    2 <= |t| <= 3 && IsAlpha(t[0]) && IsAlpha(t[1]) && (|t| == 2 || IsAlpha(t[2]))
  }

  /** alpha{4} */
  predicate IsScriptSubtag(t: string) {
    |t| == 4 && IsAlpha(t[0]) && IsAlpha(t[1]) && IsAlpha(t[2]) && IsAlpha(t[3])
  }

  /** alpha{2}; the digit form is never met, see ClassifyRegion. */
  predicate IsRegionSubtag(t: string) {
    |t| == 2 && IsAlpha(t[0]) && IsAlpha(t[1])
  }

  /**
   * The variant test as the switch on the length runs it: lengths 8 down to 5
   * fall through, testing characters length-1 down to 4; length 4 needs a
   * digit and three alphanumerics; other lengths have no case and pass.
   */
  predicate IsVariantSubtag(t: string) {
    if 5 <= |t| <= 8 then
      && (|t| == 8 ==> IsAlnum(t[7]))
      && (|t| >= 7 ==> IsAlnum(t[6]))
      && (|t| >= 6 ==> IsAlnum(t[5]))
      && IsAlnum(t[4])
    else if |t| == 4 then
      IsDigit(t[0]) && IsAlnum(t[1]) && IsAlnum(t[2]) && IsAlnum(t[3])
    else
      true
  }

  /**
   * The first subtags: "root" is stored as the language; otherwise a subtag of
   * length 2 or 3 must be a language, and a script may follow it or stand
   * first on its own. Also gives the index of the next unread subtag.
   */
  function ClassifyHead(tags: seq<string>): (r: Option<(LocaleChunks, nat)>)
    requires |tags| > 0
    ensures r.Some? ==> 1 <= r.value.1 <= |tags|
  {
    if tags[0] == "root" then
      Some((ConstructLocaleChunks().(language := Some("root")), 1))
    else if 2 <= |tags[0]| <= 3 then
      if !IsLanguageSubtag(tags[0]) then None
      else
        var lc := ConstructLocaleChunks().(language := Some(tags[0]));
        if 1 < |tags| && IsScriptSubtag(tags[1]) then Some((lc.(script := Some(tags[1])), 2))
        else Some((lc, 1))
    else if IsScriptSubtag(tags[0]) then
      Some((ConstructLocaleChunks().(script := Some(tags[0])), 1))
    else
      None
  }

  /**
   * The optional region at index n. A 2-character subtag must be a region. A
   * 3-character one is tested for digits at its indices 0, 1 and 3, and index
   * 3 is the separator or terminator after it, never a digit: it is always
   * refused. Any other length is left for the variants.
   */
  function ClassifyRegion(tags: seq<string>, lc: LocaleChunks, n: nat): (r: Option<(LocaleChunks, nat)>)
    requires n <= |tags|
    ensures r.Some? ==> n <= r.value.1 <= |tags|
  {
    if n == |tags| then Some((lc, n))
    else if |tags[n]| == 2 then
      if IsRegionSubtag(tags[n]) then Some((lc.(territory := Some(tags[n])), n + 1)) else None
    else if |tags[n]| == 3 then None
    else Some((lc, n))
  }

  /** The classification phase: head, region, then every remaining subtag as a variant. */
  function Classify(tags: seq<string>): (r: Option<LocaleChunks>)
    requires |tags| > 0
    ensures r.Some? ==> r.value.codeset.None? && r.value.modifier.None?
    ensures r.Some? ==> r.value.language.Some? || r.value.script.Some?
    ensures r.Some? ==> |r.value.variants| <= |tags| - 1 && r.value.variants == tags[|tags| - |r.value.variants|..]
    ensures r.Some? ==> forall v | v in r.value.variants :: IsVariantSubtag(v)
  {
    match ClassifyHead(tags)
    case None => None
    case Some((head, n)) =>
      match ClassifyRegion(tags, head, n)
      case None => None
      case Some((lc, m)) =>
        if forall k | m <= k < |tags| :: IsVariantSubtag(tags[k]) then Some(lc.(variants := tags[m..]))
        else None
  }

  /** UnicodeLocaleIDToLocaleChunks on a non-NULL string. */
  function ParseUnicode(s: string): Option<LocaleChunks> {
    match Subtags(s)
    case None => None
    case Some(tags) => Classify(tags)
  }

  /**
   * LocaleChunksToUnicodeLocaleID: NULL unless there is a language or a
   * script; codeset and modifier are not written.
   */
  function UnicodeForm(lc: LocaleChunks): Option<string> {
    if lc.language.None? && lc.script.None? then None
    else
      var head := if lc.language.Some? then lc.language.value + Part('_', lc.script) else lc.script.value;
      Some(head + Part('_', lc.territory) + Prefixed(lc.variants, '_'))
  }

  function Opt(f: Option<string>): seq<string> {
    if f.Some? then [f.value] else []
  }

  /** The subtags a record stands for, in the order the Unicode form has them. */
  function RecordSubtags(lc: LocaleChunks): seq<string> {
    Opt(lc.language) + Opt(lc.script) + Opt(lc.territory) + lc.variants
  }

  /** The records the Unicode parser can produce. */
  predicate IsUnicodeRecord(lc: LocaleChunks) {
    && lc.codeset.None? && lc.modifier.None?
    && (lc.language.Some? || lc.script.Some?)
    && (lc.language.Some? ==> lc.language.value == "root" || IsLanguageSubtag(lc.language.value))
    && (lc.language == Some("root") ==> lc.script.None?)
    && (lc.language.None? ==> lc.script != Some("root"))
    && (lc.script.Some? ==> IsScriptSubtag(lc.script.value))
    && (lc.territory.Some? ==> IsRegionSubtag(lc.territory.value))
    && (forall v | v in lc.variants :: |v| > 0 && AllAlnum(v) && IsVariantSubtag(v))
    // without a region, the first variant cannot have the length of one
    && (lc.territory.None? && |lc.variants| > 0 ==> |lc.variants[0]| != 2 && |lc.variants[0]| != 3)
  }

  lemma PrefixedOpt(f: Option<string>, sep: char)
    ensures Prefixed(Opt(f), sep) == Part(sep, f)
  {
    if f.Some? {
      assert [f.value][..0] == [];
    }
  }

  lemma JoinedCons(x: string, rest: seq<string>, sep: char)
    ensures Joined([x] + rest, sep) == x + Prefixed(rest, sep)
  {
    assert ([x] + rest)[1..] == rest;
  }

  lemma PrefixedRest(lc: LocaleChunks)
    ensures Prefixed(Opt(lc.territory) + lc.variants, '_') == Part('_', lc.territory) + Prefixed(lc.variants, '_')
  {
    PrefixedOpt(lc.territory, '_');
    PrefixedAppend(Opt(lc.territory), lc.variants, '_');
  }

  lemma PrefixedThree(a: seq<string>, b: seq<string>, c: seq<string>, sep: char)
    ensures Prefixed(a + b + c, sep) == Prefixed(a, sep) + Prefixed(b, sep) + Prefixed(c, sep)
  {
    PrefixedAppend(a + b, c, sep);
    PrefixedAppend(a, b, sep);
  }

  lemma PrefixedFromScript(lc: LocaleChunks)
    ensures Prefixed(Opt(lc.script) + Opt(lc.territory) + lc.variants, '_')
         == Part('_', lc.script) + Part('_', lc.territory) + Prefixed(lc.variants, '_')
  {
    PrefixedThree(Opt(lc.script), Opt(lc.territory), lc.variants, '_');
    PrefixedOpt(lc.script, '_');
    PrefixedOpt(lc.territory, '_');
  }

  lemma UnicodeFormJoinsScriptOnly(lc: LocaleChunks)
    requires lc.language.None? && lc.script.Some?
    ensures UnicodeForm(lc) == Some(Joined(RecordSubtags(lc), '_'))
  {
    var x, rest := lc.script.value, Opt(lc.territory) + lc.variants;
    assert RecordSubtags(lc) == [x] + rest;
    JoinedCons(x, rest, '_');
    PrefixedRest(lc);
    var t, v := Part('_', lc.territory), Prefixed(lc.variants, '_');
    assert UnicodeForm(lc) == Some(x + t + v);
    assert x + (t + v) == x + t + v;
  }

  lemma UnicodeFormJoinsLanguage(lc: LocaleChunks)
    requires lc.language.Some?
    ensures UnicodeForm(lc) == Some(Joined(RecordSubtags(lc), '_'))
  {
    var l := lc.language.value;
    var mid := Opt(lc.script) + Opt(lc.territory) + lc.variants;
    assert RecordSubtags(lc) == [l] + mid;
    JoinedCons(l, mid, '_');
    PrefixedFromScript(lc);
    var p, t, v := Part('_', lc.script), Part('_', lc.territory), Prefixed(lc.variants, '_');
    assert UnicodeForm(lc) == Some((l + p) + t + v);
    assert l + (p + t + v) == (l + p) + t + v;
  }

  /** The Unicode form is the record's subtags joined by '_'. */
  lemma UnicodeFormJoins(lc: LocaleChunks)
    requires lc.language.Some? || lc.script.Some?
    ensures |RecordSubtags(lc)| > 0
    ensures UnicodeForm(lc) == Some(Joined(RecordSubtags(lc), '_'))
  {
    if lc.language.Some? {
      UnicodeFormJoinsLanguage(lc);
    } else {
      UnicodeFormJoinsScriptOnly(lc);
    }
  }

  /** The head's record holds exactly the subtags it read, each of the right shape. */
  lemma ClassifyHeadSound(tags: seq<string>, head: LocaleChunks, n: nat)
    requires |tags| > 0
    requires ClassifyHead(tags) == Some((head, n))
    ensures tags[..n] == Opt(head.language) + Opt(head.script)
    ensures head.territory.None? && head.codeset.None? && head.modifier.None? && head.variants == []
    ensures head.language.Some? || head.script.Some?
    ensures head.language.Some? ==> head.language.value == "root" || IsLanguageSubtag(head.language.value)
    ensures head.language == Some("root") ==> head.script.None?
    ensures head.language.None? ==> head.script != Some("root")
    ensures head.script.Some? ==> IsScriptSubtag(head.script.value)
  {
    if tags[0] == "root" {
      assert tags[..n] == [tags[0]];
    } else if 2 <= |tags[0]| <= 3 {
      if n == 2 {
        assert tags[..n] == [tags[0], tags[1]];
      } else {
        assert tags[..n] == [tags[0]];
      }
    } else {
      assert tags[..n] == [tags[0]];
    }
  }

  /** The region step reads at most one subtag, and only a region. */
  lemma ClassifyRegionSound(tags: seq<string>, head: LocaleChunks, n: nat, reg: LocaleChunks, m: nat)
    requires n <= |tags| && head.territory.None?
    requires ClassifyRegion(tags, head, n) == Some((reg, m))
    ensures n <= m <= |tags| && tags[n..m] == Opt(reg.territory)
    ensures m > n ==> reg == head.(territory := reg.territory) && IsRegionSubtag(reg.territory.value)
    ensures m == n ==> reg == head && (m < |tags| ==> |tags[m]| != 2 && |tags[m]| != 3)
  {
    if m == n + 1 {
      assert tags[n..m] == [tags[n]];
    }
  }

  /** Classify taken apart into its three steps. */
  lemma ClassifyParts(tags: seq<string>, lc: LocaleChunks) returns (head: LocaleChunks, n: nat, reg: LocaleChunks, m: nat)
    requires |tags| > 0 && Classify(tags) == Some(lc)
    ensures ClassifyHead(tags) == Some((head, n))
    ensures n <= |tags| && ClassifyRegion(tags, head, n) == Some((reg, m))
    ensures m <= |tags| && lc == reg.(variants := tags[m..])
    ensures forall k | m <= k < |tags| :: IsVariantSubtag(tags[k])
  {
    head, n := ClassifyHead(tags).value.0, ClassifyHead(tags).value.1;
    reg, m := ClassifyRegion(tags, head, n).value.0, ClassifyRegion(tags, head, n).value.1;
  }

  /** A head, an optional region and variants of the right shapes make a Unicode record. */
  lemma RecordOfParts(head: LocaleChunks, reg: LocaleChunks, variants: seq<string>)
    requires head.territory.None? && head.codeset.None? && head.modifier.None?
    requires head.language.Some? || head.script.Some?
    requires head.language.Some? ==> head.language.value == "root" || IsLanguageSubtag(head.language.value)
    requires head.language == Some("root") ==> head.script.None?
    requires head.language.None? ==> head.script != Some("root")
    requires head.script.Some? ==> IsScriptSubtag(head.script.value)
    requires reg == head.(territory := reg.territory)
    requires reg.territory.Some? ==> IsRegionSubtag(reg.territory.value)
    requires forall v | v in variants :: |v| > 0 && AllAlnum(v) && IsVariantSubtag(v)
    requires reg.territory.None? && |variants| > 0 ==> |variants[0]| != 2 && |variants[0]| != 3
    ensures IsUnicodeRecord(reg.(variants := variants))
  {
  }

  /** The subtags consumed by the three steps are the record's, in order. */
  lemma SubtagsOfParts(tags: seq<string>, head: LocaleChunks, n: nat, reg: LocaleChunks, m: nat)
    requires n <= m <= |tags|
    requires tags[..n] == Opt(head.language) + Opt(head.script)
    requires tags[n..m] == Opt(reg.territory)
    requires reg.language == head.language && reg.script == head.script
    ensures RecordSubtags(reg.(variants := tags[m..])) == tags
  {
    assert tags == tags[..n] + tags[n..m] + tags[m..];
  }

  /** Every record the classification produces is a Unicode record whose subtags are exactly the input's. */
  lemma ClassifySound(tags: seq<string>, lc: LocaleChunks)
    requires |tags| > 0
    requires forall t | t in tags :: |t| > 0 && AllAlnum(t)
    requires Classify(tags) == Some(lc)
    ensures IsUnicodeRecord(lc)
    ensures RecordSubtags(lc) == tags
  {
    var head, n, reg, m := ClassifyParts(tags, lc);
    ClassifyHeadSound(tags, head, n);
    ClassifyRegionSound(tags, head, n, reg, m);
    var variants := tags[m..];
    forall v | v in variants ensures |v| > 0 && AllAlnum(v) && IsVariantSubtag(v) {
      var k :| 0 <= k < |variants| && variants[k] == v;
      assert tags[m + k] == v;
    }
    assert reg.territory.None? && |variants| > 0 ==> variants[0] == tags[m];
    RecordOfParts(head, reg, variants);
    SubtagsOfParts(tags, head, n, reg, m);
  }

  /** After a record's language and script, the next subtag (a region or a variant) is not a script. */
  lemma AfterHeadNotScript(lc: LocaleChunks)
    requires IsUnicodeRecord(lc)
    ensures Opt(lc.territory) + lc.variants != [] ==> !IsScriptSubtag((Opt(lc.territory) + lc.variants)[0])
  {
    if lc.territory.None? && lc.variants != [] {
      assert lc.variants[0] in lc.variants;
      assert (Opt(lc.territory) + lc.variants)[0] == lc.variants[0];
    }
  }

  /** The head step reads back a record's language and script. */
  lemma ClassifyHeadOfRecord(lc: LocaleChunks)
    requires IsUnicodeRecord(lc)
    ensures |RecordSubtags(lc)| > 0
    ensures ClassifyHead(RecordSubtags(lc))
         == Some((ConstructLocaleChunks().(language := lc.language, script := lc.script), |Opt(lc.language) + Opt(lc.script)|))
  {
    var tags := RecordSubtags(lc);
    var rest := Opt(lc.territory) + lc.variants;
    AfterHeadNotScript(lc);
    if lc.language.None? {
      assert tags == [lc.script.value] + rest;
      HeadScriptOnly(tags, lc.script.value);
    } else if lc.script.Some? {
      assert tags == [lc.language.value, lc.script.value] + rest;
      HeadLanguageScript(tags, lc.language.value, lc.script.value);
    } else {
      assert tags == [lc.language.value] + rest;
      assert 1 < |tags| ==> tags[1] == rest[0];
      HeadLanguageOnly(tags, lc.language.value);
    }
  }

  lemma HeadScriptOnly(tags: seq<string>, script: string)
    requires |tags| > 0 && tags[0] == script && IsScriptSubtag(script) && script != "root"
    ensures ClassifyHead(tags) == Some((ConstructLocaleChunks().(script := Some(script)), 1))
  {
  }

  lemma HeadLanguageScript(tags: seq<string>, language: string, script: string)
    requires |tags| > 1 && tags[0] == language && tags[1] == script
    requires IsLanguageSubtag(language) && IsScriptSubtag(script)
    ensures ClassifyHead(tags) == Some((ConstructLocaleChunks().(language := Some(language), script := Some(script)), 2))
  {
  }

  lemma HeadLanguageOnly(tags: seq<string>, language: string)
    requires |tags| > 0 && tags[0] == language && (language == "root" || IsLanguageSubtag(language))
    requires |tags| > 1 ==> !IsScriptSubtag(tags[1])
    ensures ClassifyHead(tags) == Some((ConstructLocaleChunks().(language := Some(language)), 1))
  {
  }

  /** The region step reads back an optional region followed by variants, when the first variant cannot pass for a region. */
  lemma ClassifyRegionAt(tags: seq<string>, head: LocaleChunks, n: nat, territory: Option<string>, variants: seq<string>)
    requires head.territory.None?
    requires n <= |tags| && tags[n..] == Opt(territory) + variants
    requires territory.Some? ==> IsRegionSubtag(territory.value)
    requires territory.None? && |variants| > 0 ==> |variants[0]| != 2 && |variants[0]| != 3
    ensures ClassifyRegion(tags, head, n) == Some((head.(territory := territory), n + |Opt(territory)|))
  {
    if n < |tags| {
      assert tags[n] == tags[n..][0];
    }
  }

  /** Classify put together from its three steps. */
  lemma ClassifySteps(tags: seq<string>, head: LocaleChunks, n: nat, reg: LocaleChunks, m: nat)
    requires |tags| > 0 && ClassifyHead(tags) == Some((head, n))
    requires ClassifyRegion(tags, head, n) == Some((reg, m))
    requires forall k | m <= k < |tags| :: IsVariantSubtag(tags[k])
    ensures Classify(tags) == Some(reg.(variants := tags[m..]))
  {
  }

  /** Classifying the subtags of a Unicode record gives that record back. */
  lemma ClassifyComplete(lc: LocaleChunks)
    requires IsUnicodeRecord(lc)
    ensures |RecordSubtags(lc)| > 0
    ensures Classify(RecordSubtags(lc)) == Some(lc)
  {
    var tags := RecordSubtags(lc);
    var n := |Opt(lc.language) + Opt(lc.script)|;
    var head := ConstructLocaleChunks().(language := lc.language, script := lc.script);
    ClassifyHeadOfRecord(lc);
    var rest := Opt(lc.territory) + lc.variants;
    assert tags == (Opt(lc.language) + Opt(lc.script)) + rest;
    assert tags[n..] == rest;
    ClassifyRegionAt(tags, head, n, lc.territory, lc.variants);
    var m := n + |Opt(lc.territory)|;
    assert tags[m..] == rest[|Opt(lc.territory)|..] == lc.variants;
    forall k | m <= k < |tags| ensures IsVariantSubtag(tags[k]) {
      assert tags[k] in lc.variants;
    }
    ClassifySteps(tags, head, n, head.(territory := lc.territory), m);
  }

  /** Soundness: an accepted identifier is the subtags of a Unicode record, in order. */
  lemma UnicodeParseSound(s: string, lc: LocaleChunks)
    requires ParseUnicode(s) == Some(lc)
    ensures IsUnicodeRecord(lc)
    ensures Subtags(s) == Some(RecordSubtags(lc))
  {
    var tags := Subtags(s).value;
    ClassifySound(tags, lc);
  }

  /** Completeness: an identifier whose subtags are those of a Unicode record parses to that record. */
  lemma UnicodeParseComplete(s: string, lc: LocaleChunks)
    requires IsUnicodeRecord(lc)
    requires Subtags(s) == Some(RecordSubtags(lc))
    ensures ParseUnicode(s) == Some(lc)
  {
    ClassifyComplete(lc);
  }

  /** Every accepted identifier is written back with each '-' turned into '_'. */
  lemma UnicodeRoundTrip(s: string, lc: LocaleChunks)
    requires ParseUnicode(s) == Some(lc)
    ensures UnicodeForm(lc) == Some(Underscored(s))
  {
    UnicodeParseSound(s, lc);
    UnicodeFormJoins(lc);
    SplitJoin(s);
  }

  /** Every record the parser can produce is produced again from its own Unicode form. */
  lemma UnicodeFormParses(lc: LocaleChunks)
    requires IsUnicodeRecord(lc)
    ensures UnicodeForm(lc).Some?
    ensures ParseUnicode(UnicodeForm(lc).value) == Some(lc)
  {
    UnicodeFormJoins(lc);
    var tags := RecordSubtags(lc);
    RecordSubtagsAreAlnum(lc);
    SubtagsOfJoined(tags, '_');
    ClassifyComplete(lc);
  }

  /** The subtags of a Unicode record are non-empty and alphanumeric. */
  lemma RecordSubtagsAreAlnum(lc: LocaleChunks)
    requires IsUnicodeRecord(lc)
    ensures forall t | t in RecordSubtags(lc) :: |t| > 0 && AllAlnum(t)
  {
    forall t | t in RecordSubtags(lc) ensures |t| > 0 && AllAlnum(t) {
      if t !in lc.variants {
        assert t in Opt(lc.language) + Opt(lc.script) + Opt(lc.territory);
      }
    }
  }

  /**
   * Over alphanumeric subtags the variant test refuses exactly the
   * 4-character subtags that do not start with a digit.
   */
  lemma VariantTestIsLoose(t: string)
    requires AllAlnum(t)
    ensures IsVariantSubtag(t) <==> !(|t| == 4 && !IsDigit(t[0]))
  {
    if 5 <= |t| <= 8 {
      assert IsAlnum(t[4]);
      if |t| >= 6 { assert IsAlnum(t[5]); }
      if |t| >= 7 { assert IsAlnum(t[6]); }
      if |t| == 8 { assert IsAlnum(t[7]); }
    } else if |t| == 4 {
      assert IsAlnum(t[1]) && IsAlnum(t[2]) && IsAlnum(t[3]);
    }
  }

  /** A first subtag that is not root, a language or a script makes the identifier invalid. */
  lemma UnicodeRejectsFirstSubtag(s: string, tags: seq<string>)
    requires Subtags(s) == Some(tags)
    requires tags[0] != "root" && !IsLanguageSubtag(tags[0]) && !IsScriptSubtag(tags[0])
    ensures ParseUnicode(s) == None
  {
  }
}

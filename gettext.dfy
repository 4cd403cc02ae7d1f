/**
 * The Gettext form language[_territory][.codeset][@modifier]: what the parser
 * accepts and produces, and what the serializer writes.
 */
module Gettext {

  import opened Wrappers
  import opened CStrings
  import opened Locale

  /** The three characters that end a chunk (the terminator ends the last one). */
  predicate IsSeparator(c: char) {
    c == '_' || c == '.' || c == '@'
  }

  predicate IsIDChar(c: char) {
    IsAlnum(c) || IsSeparator(c)
  }

  predicate AllIDChars(s: string) {
    forall k | 0 <= k < |s| :: IsIDChar(s[k])
  }

  /** The slot order: territory, then codeset, then modifier. */
  function Rank(sep: char): nat {
    if sep == '_' then 0 else if sep == '.' then 1 else 2
  }

  /** The first slot still open after the fields already set. */
  function Stage(acc: LocaleChunks): nat {
    if acc.modifier.Some? then 3
    else if acc.codeset.Some? then 2
    else if acc.territory.Some? then 1
    else 0
  }

  /** The end of the chunk that starts at i: the first separator at or after i, or |s|. */
  function SegmentEnd(s: string, i: nat): (j: nat)
    requires i <= |s|
    ensures i <= j <= |s|
    ensures j == |s| || IsSeparator(s[j])
    ensures forall k | i <= k < j :: !IsSeparator(s[k])
    decreases |s| - i
  {
    if i == |s| || IsSeparator(s[i]) then i else SegmentEnd(s, i + 1)
  }

  lemma {:induction false} SegmentEndAt(s: string, i: nat, j: nat)
    requires i <= j <= |s|
    requires forall k | i <= k < j :: !IsSeparator(s[k])
    requires j == |s| || IsSeparator(s[j])
    ensures SegmentEnd(s, i) == j
    decreases j - i
  {
    if i < j {
      SegmentEndAt(s, i + 1, j);
    }
  }

  /**
   * The chunks after the language, from the separator at i onwards: each
   * separator names the field of the chunk that follows it, and a field may
   * be stored only while it and every later slot are still NULL.
   */
  function ParseFields(s: string, i: nat, acc: LocaleChunks): (r: Option<LocaleChunks>)
    requires i <= |s|
    requires i == |s| || IsSeparator(s[i])
    ensures r.Some? ==> r.value.language == acc.language && r.value.script == acc.script && r.value.variants == acc.variants
    ensures r.Some? ==> Stage(acc) <= Stage(r.value)
    ensures r.Some? && acc.territory.Some? ==> r.value.territory == acc.territory
    ensures r.Some? && acc.codeset.Some? ==> r.value.codeset == acc.codeset
    ensures r.Some? && acc.modifier.Some? ==> r.value == acc
    decreases |s| - i
  {
    if i == |s| then Some(acc)
    else
      var j := SegmentEnd(s, i + 1);
      if j == i + 1 then None
      else
        var chunk := s[i + 1..j];
        if s[i] == '_' then
          if acc.territory.Some? || acc.codeset.Some? || acc.modifier.Some? then None
          else ParseFields(s, j, acc.(territory := Some(chunk)))
        else if s[i] == '.' then
          if acc.codeset.Some? || acc.modifier.Some? then None
          else ParseFields(s, j, acc.(codeset := Some(chunk)))
        else
          if acc.modifier.Some? then None
          else ParseFields(s, j, acc.(modifier := Some(chunk)))
  }

  /** GettextLocaleIDToLocaleChunks on a non-NULL string. */
  function ParseGettext(s: string): Option<LocaleChunks> {
    if !AllIDChars(s) then None
    else
      var j := SegmentEnd(s, 0);
      if j == 0 then None
      else ParseFields(s, j, ConstructLocaleChunks().(language := Some(s[..j])))
  }

  /** LocaleChunksToGettextLocaleID: NULL without a language; script and variants are not written. */
  function GettextForm(lc: LocaleChunks): Option<string> {
    if lc.language.None? then None
    else Some(lc.language.value + Part('_', lc.territory) + Part('.', lc.codeset) + Part('@', lc.modifier))
  }

  /** The records the Gettext parser can produce. */
  predicate IsGettextRecord(lc: LocaleChunks) {
    && lc.language.Some? && IsChunk(lc.language)
    && IsChunk(lc.territory) && IsChunk(lc.codeset) && IsChunk(lc.modifier)
    && lc.script.None? && lc.variants == []
  }

  /** The Gettext identifiers, stated character by character. */
  predicate IsGettextID(s: string) {
    && |s| > 0
    && !IsSeparator(s[0])
    && AllIDChars(s)
    && (forall k | 0 <= k < |s| && IsSeparator(s[k]) :: k + 1 < |s| && !IsSeparator(s[k + 1]))
    && (forall k, k' | 0 <= k < k' < |s| && IsSeparator(s[k]) && IsSeparator(s[k']) :: Rank(s[k]) < Rank(s[k']))
  }

  /** The field a separator names, set to the chunk that follows it. */
  function Store(acc: LocaleChunks, sep: char, chunk: string): LocaleChunks {
    if sep == '_' then acc.(territory := Some(chunk))
    else if sep == '.' then acc.(codeset := Some(chunk))
    else acc.(modifier := Some(chunk))
  }

  /** One chunk of ParseFields, when its separator's slot is still open. */
  lemma ParseFieldsStep(s: string, i: nat, j: nat, acc: LocaleChunks)
    requires i + 1 < j <= |s| && IsSeparator(s[i])
    requires forall k | i < k < j :: !IsSeparator(s[k])
    requires j == |s| || IsSeparator(s[j])
    requires Stage(acc) <= Rank(s[i])
    ensures ParseFields(s, i, acc) == ParseFields(s, j, Store(acc, s[i], s[i + 1..j]))
  {
    SegmentEndAt(s, i + 1, j);
  }

  /** What a successful ParseFields step checked: a non-empty chunk in a slot still open. */
  lemma ParseFieldsUnfold(s: string, i: nat, acc: LocaleChunks)
    requires i < |s| && IsSeparator(s[i])
    requires ParseFields(s, i, acc).Some?
    ensures SegmentEnd(s, i + 1) > i + 1
    ensures Stage(acc) <= Rank(s[i])
    ensures ParseFields(s, i, acc) == ParseFields(s, SegmentEnd(s, i + 1), Store(acc, s[i], s[i + 1..SegmentEnd(s, i + 1)]))
  {
  }

  /** Storing a chunk in an open slot appends that slot's separator and the chunk to the Gettext form. */
  lemma StoreForm(acc: LocaleChunks, sep: char, chunk: string)
    requires acc.language.Some? && IsSeparator(sep) && Stage(acc) <= Rank(sep)
    ensures GettextForm(Store(acc, sep, chunk)) == Some(GettextForm(acc).value + [sep] + chunk)
  {
    var lang, t, c := acc.language.value, acc.territory, acc.codeset;
    if sep == '_' {
      assert GettextForm(acc).value == lang + "" + "" + "";
      assert GettextForm(Store(acc, sep, chunk)).value == lang + ([sep] + chunk) + "" + "";
      assert lang + ([sep] + chunk) + "" + "" == (lang + "" + "" + "") + [sep] + chunk;
    } else if sep == '.' {
      assert GettextForm(acc).value == lang + Part('_', t) + "" + "";
      assert GettextForm(Store(acc, sep, chunk)).value == lang + Part('_', t) + ([sep] + chunk) + "";
      assert lang + Part('_', t) + ([sep] + chunk) + "" == (lang + Part('_', t) + "" + "") + [sep] + chunk;
    } else {
      assert GettextForm(acc).value == lang + Part('_', t) + Part('.', c) + "";
      assert GettextForm(Store(acc, sep, chunk)).value == lang + Part('_', t) + Part('.', c) + ([sep] + chunk);
      assert lang + Part('_', t) + Part('.', c) + ([sep] + chunk) == (lang + Part('_', t) + Part('.', c) + "") + [sep] + chunk;
    }
  }

  lemma {:induction false} ParseFieldsRoundTrip(s: string, i: nat, acc: LocaleChunks, lc: LocaleChunks)
    requires i <= |s| && (i == |s| || IsSeparator(s[i]))
    requires AllIDChars(s)
    requires IsGettextRecord(acc) && GettextForm(acc) == Some(s[..i])
    requires ParseFields(s, i, acc) == Some(lc)
    ensures IsGettextRecord(lc) && GettextForm(lc) == Some(s)
    decreases |s| - i
  {
    if i == |s| {
      assert s[..i] == s;
    } else {
      ParseFieldsUnfold(s, i, acc);
      var j := SegmentEnd(s, i + 1);
      var chunk := s[i + 1..j];
      assert AllAlnum(chunk) by {
        forall k | 0 <= k < |chunk| ensures IsAlnum(chunk[k]) {
          assert chunk[k] == s[i + 1 + k];
        }
      }
      var acc' := Store(acc, s[i], chunk);
      StoreForm(acc, s[i], chunk);
      assert s[..j] == s[..i] + [s[i]] + chunk;
      ParseFieldsRoundTrip(s, j, acc', lc);
    }
  }

  lemma {:induction false} ParseFieldsOrdered(s: string, i: nat, acc: LocaleChunks)
    requires i <= |s| && (i == |s| || IsSeparator(s[i]))
    requires ParseFields(s, i, acc).Some?
    ensures forall k | i <= k < |s| && IsSeparator(s[k]) ::
      Stage(acc) <= Rank(s[k]) && k + 1 < |s| && !IsSeparator(s[k + 1])
    ensures forall k, k' | i <= k < k' < |s| && IsSeparator(s[k]) && IsSeparator(s[k']) ::
      Rank(s[k]) < Rank(s[k'])
    decreases |s| - i
  {
    if i < |s| {
      ParseFieldsUnfold(s, i, acc);
      var j := SegmentEnd(s, i + 1);
      var acc' := Store(acc, s[i], s[i + 1..j]);
      assert Stage(acc') == Rank(s[i]) + 1;
      ParseFieldsOrdered(s, j, acc');
    }
  }

  lemma {:induction false} ParseFieldsComplete(s: string, i: nat, acc: LocaleChunks)
    requires i <= |s| && (i == |s| || IsSeparator(s[i]))
    requires forall k | i <= k < |s| && IsSeparator(s[k]) ::
      Stage(acc) <= Rank(s[k]) && k + 1 < |s| && !IsSeparator(s[k + 1])
    requires forall k, k' | i <= k < k' < |s| && IsSeparator(s[k]) && IsSeparator(s[k']) ::
      Rank(s[k]) < Rank(s[k'])
    ensures ParseFields(s, i, acc).Some?
    decreases |s| - i
  {
    if i < |s| {
      var j := SegmentEnd(s, i + 1);
      assert j > i + 1;
      var acc' := Store(acc, s[i], s[i + 1..j]);
      assert Stage(acc') == Rank(s[i]) + 1;
      assert ParseFields(s, i, acc) == ParseFields(s, j, acc');
      ParseFieldsComplete(s, j, acc');
    }
  }

  /** The parser accepts exactly the Gettext identifiers. */
  lemma GettextAcceptance(s: string)
    ensures ParseGettext(s).Some? <==> IsGettextID(s)
  {
    if AllIDChars(s) && SegmentEnd(s, 0) > 0 {
      var j := SegmentEnd(s, 0);
      var acc := ConstructLocaleChunks().(language := Some(s[..j]));
      if ParseGettext(s).Some? {
        ParseFieldsOrdered(s, j, acc);
      }
      if IsGettextID(s) {
        ParseFieldsComplete(s, j, acc);
      }
    }
  }

  /** Every accepted identifier is written back verbatim, from a record with a language and no script or variants. */
  lemma GettextRoundTrip(s: string, lc: LocaleChunks)
    requires ParseGettext(s) == Some(lc)
    ensures IsGettextRecord(lc)
    ensures GettextForm(lc) == Some(s)
  {
    var j := SegmentEnd(s, 0);
    var acc := ConstructLocaleChunks().(language := Some(s[..j]));
    assert AllAlnum(s[..j]) by {
      forall k | 0 <= k < j ensures IsAlnum(s[..j][k]) {
        assert IsIDChar(s[k]);
      }
    }
    assert s[..j] + "" + "" + "" == s[..j];
    assert IsGettextRecord(acc);
    ParseFieldsRoundTrip(s, j, acc, lc);
  }

  /** A Part of the Gettext form: its separator first, then alphanumerics only. */
  lemma PartShape(sep: char, f: Option<string>)
    requires IsSeparator(sep) && IsChunk(f)
    ensures forall k | 0 <= k < |Part(sep, f)| :: IsIDChar(Part(sep, f)[k]) && (IsSeparator(Part(sep, f)[k]) <==> k == 0)
    ensures |Part(sep, f)| > 0 ==> Part(sep, f)[0] == sep && Part(sep, f)[1..] == f.value && |Part(sep, f)| > 1
  {
    if f.Some? {
      forall k | 0 <= k < |Part(sep, f)|
        ensures IsIDChar(Part(sep, f)[k]) && (IsSeparator(Part(sep, f)[k]) <==> k == 0)
      {
        if k > 0 {
          assert Part(sep, f)[k] == f.value[k - 1];
        }
      }
    }
  }

  /** ParseFields through one Part of a Gettext form that starts at i and ends at j. */
  lemma ParseFieldsPart(s: string, i: nat, j: nat, sep: char, f: Option<string>, acc: LocaleChunks)
    requires IsSeparator(sep) && IsChunk(f)
    requires i <= j <= |s| && s[i..j] == Part(sep, f)
    requires j == |s| || IsSeparator(s[j])
    requires Stage(acc) <= Rank(sep)
    ensures i == |s| || IsSeparator(s[i])
    ensures ParseFields(s, i, acc) == ParseFields(s, j, if f.Some? then Store(acc, sep, f.value) else acc)
  {
    PartShape(sep, f);
    if f.Some? {
      assert s[i] == s[i..j][0];
      forall k | i < k < j ensures !IsSeparator(s[k]) {
        assert s[k] == s[i..j][k - i];
      }
      assert s[i + 1..j] == s[i..j][1..];
      ParseFieldsStep(s, i, j, acc);
    }
  }

  lemma AllIDCharsConcat(a: string, b: string)
    requires AllIDChars(a) && AllIDChars(b)
    ensures AllIDChars(a + b)
  {
    forall k | 0 <= k < |a + b| ensures IsIDChar((a + b)[k]) {
      if k >= |a| {
        assert (a + b)[k] == b[k - |a|];
      }
    }
  }

  /** Where the language and the three Parts sit in the Gettext form. */
  lemma FormSlices(L: string, T: string, C: string, M: string)
    ensures var s, i0, i1, i2 := L + T + C + M, |L|, |L| + |T|, |L| + |T| + |C|;
      s[..i0] == L && s[i0..i1] == T && s[i1..i2] == C && s[i2..] == M
  {
  }

  /** The Gettext form of a record of the parser's shape uses only ID characters, and its language holds no separator. */
  lemma FormChars(lc: LocaleChunks)
    requires IsGettextRecord(lc)
    ensures GettextForm(lc).Some?
    ensures AllIDChars(GettextForm(lc).value)
    ensures forall k | 0 <= k < |lc.language.value| :: !IsSeparator(GettextForm(lc).value[k])
  {
    var L := lc.language.value;
    var T, C, M := Part('_', lc.territory), Part('.', lc.codeset), Part('@', lc.modifier);
    assert GettextForm(lc) == Some(L + T + C + M);
    PartShape('_', lc.territory);
    PartShape('.', lc.codeset);
    PartShape('@', lc.modifier);
    assert AllIDChars(L);
    AllIDCharsConcat(L, T);
    AllIDCharsConcat(L + T, C);
    AllIDCharsConcat(L + T + C, M);
    assert L + T + C + M == L + (T + C + M);
  }

  /** Every record the parser can produce is produced from its own Gettext form. */
  lemma GettextFormParses(lc: LocaleChunks)
    requires IsGettextRecord(lc)
    ensures GettextForm(lc).Some?
    ensures ParseGettext(GettextForm(lc).value) == Some(lc)
  {
    var L := lc.language.value;
    var T, C, M := Part('_', lc.territory), Part('.', lc.codeset), Part('@', lc.modifier);
    var s := L + T + C + M;
    assert GettextForm(lc) == Some(s);
    var i0, i1, i2 := |L|, |L| + |T|, |L| + |T| + |C|;
    FormSlices(L, T, C, M);
    FormChars(lc);
    var acc0 := ConstructLocaleChunks().(language := Some(L));
    var acc1 := if lc.territory.Some? then Store(acc0, '_', lc.territory.value) else acc0;
    var acc2 := if lc.codeset.Some? then Store(acc1, '.', lc.codeset.value) else acc1;
    var acc3 := if lc.modifier.Some? then Store(acc2, '@', lc.modifier.value) else acc2;
    ParseFieldsPart(s, i2, |s|, '@', lc.modifier, acc2);
    ParseFieldsPart(s, i1, i2, '.', lc.codeset, acc1);
    ParseFieldsPart(s, i0, i1, '_', lc.territory, acc0);
    SegmentEndAt(s, 0, i0);
    assert acc3 == lc;
  }

  /** An empty language, an empty chunk (adjacent separators or a trailing one) or a character outside [A-Za-z0-9_.@] is refused. */
  lemma GettextRejectsMalformed(s: string, k: nat)
    requires k < |s|
    requires !IsIDChar(s[k]) || (IsSeparator(s[k]) && (k == 0 || k + 1 == |s| || IsSeparator(s[k + 1])))
    ensures ParseGettext(s) == None
  {
    GettextAcceptance(s);
  }

  /** A separator whose slot is not after the previous separator's slot (a repeated or misplaced field) is refused. */
  lemma GettextRejectsMisplaced(s: string, k: nat, k': nat)
    requires k < k' < |s| && IsSeparator(s[k]) && IsSeparator(s[k'])
    requires Rank(s[k']) <= Rank(s[k])
    ensures ParseGettext(s) == None
  {
    GettextAcceptance(s);
  }
}

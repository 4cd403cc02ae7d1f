/**
 * GettextLocaleIDToLocaleChunks and LocaleChunksToGettextLocaleID as the C
 * code runs them: a pointer walk that fills the record in place, and a
 * buffer sized up front then filled with strcpy/strcat.
 */
module GettextEngine {

  import opened Wrappers
  import opened CStrings
  import opened Locale
  import opened Gettext

  /**
   * Scans `locale` left to right, remembering in `separator` the position of
   * the last chunk boundary (-1 while there is none). A NULL locale is None.
   */
  method GettextLocaleIDToLocaleChunks(locale: Option<string>) returns (r: Option<LocaleChunks>)
    requires locale.Some? ==> IsCString(locale.value)
    ensures r == (if locale.Some? then ParseGettext(locale.value) else None)
  {
    if locale.None? {
      return None;
    }
    var s := locale.value;
    var separator: int := -1;
    var result: Option<LocaleChunks> := None;
    var p: nat := 0;
    while separator < 0 || At(s, separator) != NUL
      invariant p <= |s| + 1
      invariant -1 <= separator < p
      invariant separator <= |s|
      invariant separator < |s| ==> p <= |s|
      invariant forall k | 0 <= k < p && k < |s| :: IsIDChar(s[k])
      invariant forall k | separator < k < p :: k < |s| && !IsSeparator(s[k])
      invariant separator < 0 <==> result.None?
      invariant 0 <= separator < |s| ==> IsSeparator(s[separator])
      invariant 0 <= separator ==>
        AllIDChars(s) ==> ParseGettext(s) == ParseFields(s, separator, result.value)
      decreases |s| + 1 - p
    {
      var c := At(s, p);
      if IsSeparator(c) || c == NUL {
        if result.None? {
          // the first chunk is the language
          if p == 0 {
            SegmentEndAt(s, 0, 0);
            return None;
          }
          SegmentEndAt(s, 0, p);
          var language := StrNDup(s, 0, p);
          result := Some(ConstructLocaleChunks().(language := Some(language)));
        } else {
          var stored, lc := StoreChunk(s, separator, p, result.value);
          if !stored {
            return None;
          }
          result := Some(lc);
        }
        separator := p;
      } else if !IsAlnum(c) {
        // invalid character
        return None;
      }
      p := p + 1;
    }
    return result;
  }

  /**
   * Sums the chunk lengths plus one for each separator and the terminator,
   * allocates that many characters and fills them with strcpy/strcat.
   * NULL when the record is NULL or has no language.
   */
  method LocaleChunksToGettextLocaleID(lc: Option<LocaleChunks>) returns (r: Option<string>)
    ensures r == (if lc.Some? then GettextForm(lc.value) else None)
  {
    if lc.None? || lc.value.language.None? {
      return None;
    }
    var c := lc.value;
    var length := |c.language.value| + 1;
    if c.territory.Some? {
      length := length + 1 + |c.territory.value|;
    }
    if c.codeset.Some? {
      length := length + 1 + |c.codeset.value|;
    }
    if c.modifier.Some? {
      length := length + 1 + |c.modifier.value|;
    }
    assert length == |GettextForm(c).value| + 1;
    var buffer := new char[length];
    var end := StrCat(buffer, 0, c.language.value);
    end := StrCatPart(buffer, end, '_', c.territory);
    end := StrCatPart(buffer, end, '.', c.codeset);
    end := StrCatPart(buffer, end, '@', c.modifier);
    assert buffer[..end] == GettextForm(c).value;
    // the terminator lands in the last cell of the buffer
    assert buffer[end] == NUL && end == length - 1;
    r := Some(buffer[..end]);
  }

  /**
   * The chunk between the separator at i and the one at j, stored in the
   * field that separator names; false for an empty chunk or a field that is
   * already set or comes too late.
   */
  method StoreChunk(s: string, i: nat, j: nat, lc: LocaleChunks) returns (stored: bool, lc': LocaleChunks)
    requires i < j <= |s| && IsSeparator(s[i])
    requires forall k | i < k < j :: !IsSeparator(s[k])
    requires j == |s| || IsSeparator(s[j])
    ensures stored <==> j > i + 1 && Stage(lc) <= Rank(s[i])
    ensures stored ==> lc' == Store(lc, s[i], s[i + 1..j])
    ensures !stored ==> ParseFields(s, i, lc) == None
    ensures stored ==> ParseFields(s, i, lc) == ParseFields(s, j, lc')
  {
    ChunkOutcome(s, i, j, lc);
    lc' := lc;
    if j == i + 1 {
      // empty chunk
      return false, lc;
    }
    if s[i] == '_' {
      if lc.territory.Some? || lc.codeset.Some? || lc.modifier.Some? {
        // duplicated or misplaced territory
        return false, lc;
      }
      var territory := StrNDup(s, i + 1, j - i - 1);
      lc' := lc.(territory := Some(territory));
    } else if s[i] == '.' {
      if lc.codeset.Some? || lc.modifier.Some? {
        // duplicated or misplaced codeset
        return false, lc;
      }
      var codeset := StrNDup(s, i + 1, j - i - 1);
      lc' := lc.(codeset := Some(codeset));
    } else if s[i] == '@' {
      if lc.modifier.Some? {
        // duplicated modifier
        return false, lc;
      }
      var modifier := StrNDup(s, i + 1, j - i - 1);
      lc' := lc.(modifier := Some(modifier));
    }
    stored := true;
  }

  /** What ParseFields does with the chunk between the separator at i and the next one at j. */
  lemma ChunkOutcome(s: string, i: nat, j: nat, acc: LocaleChunks)
    requires i < j <= |s| && IsSeparator(s[i])
    requires forall k | i < k < j :: !IsSeparator(s[k])
    requires j == |s| || IsSeparator(s[j])
    ensures ParseFields(s, i, acc) ==
      if j == i + 1 || Stage(acc) > Rank(s[i]) then None
      else ParseFields(s, j, Store(acc, s[i], s[i + 1..j]))
  {
    SegmentEndAt(s, i + 1, j);
  }
}

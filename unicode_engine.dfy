/**
 * UnicodeLocaleIDToLocaleChunks and LocaleChunksToUnicodeLocaleID as the C
 * code runs them: subtag positions collected into two arrays, classified
 * under a badData flag with a nextChunk cursor; and a buffer sized up front
 * then filled with strcpy/strcat.
 */
module UnicodeEngine {

  import opened Wrappers
  import opened CStrings
  import opened Locale
  import opened UnicodeSubtags
  import opened Unicode

  /**
   * Subtag i is the text of length lens[i] at starts[i], and is followed by
   * a separator or the terminator.
   */
  predicate ChunksMatch(s: string, starts: seq<nat>, lens: seq<nat>, tags: seq<string>) {
    && |starts| == |lens| == |tags|
    && forall i | 0 <= i < |tags| ::
      && lens[i] > 0
      && starts[i] + lens[i] <= |s|
      && s[starts[i]..starts[i] + lens[i]] == tags[i]
      && (starts[i] + lens[i] == |s| || IsSubtagSeparator(s[starts[i] + lens[i]]))
  }

  lemma ChunksMatchSnoc(s: string, starts: seq<nat>, lens: seq<nat>, tags: seq<string>, a: nat, n: nat)
    requires ChunksMatch(s, starts, lens, tags)
    requires 0 < n && a + n <= |s| && (a + n == |s| || IsSubtagSeparator(s[a + n]))
    ensures ChunksMatch(s, starts + [a], lens + [n], tags + [s[a..a + n]])
  {
  }

  /**
   * What the first loop knows after reading s[..p]: every character read is
   * a letter, digit or separator, the subtags closed so far are recorded and
   * non-empty, and the one in progress starts at chunkStart.
   */
  predicate Scanned(s: string, p: nat, chunkStart: nat, recorded: seq<string>) {
    && chunkStart <= p <= |s|
    && AllTagChars(s[..p])
    && Split(s[..p]) == recorded + [s[chunkStart..p]]
    && "" !in recorded
  }

  lemma ScanChar(s: string, p: nat, chunkStart: nat, recorded: seq<string>)
    requires Scanned(s, p, chunkStart, recorded)
    requires p < |s| && IsAlnum(s[p])
    ensures Scanned(s, p + 1, chunkStart, recorded)
  {
    SplitExtendChar(s, p);
    var a := recorded + [s[chunkStart..p]];
    assert a[..|a| - 1] == recorded && a[|a| - 1] == s[chunkStart..p];
    assert s[chunkStart..p + 1] == s[chunkStart..p] + [s[p]];
    TagCharsExtend(s, p);
  }

  lemma ScanSeparator(s: string, p: nat, chunkStart: nat, recorded: seq<string>)
    requires Scanned(s, p, chunkStart, recorded)
    requires p < |s| && IsSubtagSeparator(s[p]) && chunkStart < p
    ensures Scanned(s, p + 1, p + 1, recorded + [s[chunkStart..p]])
  {
    SplitExtendSeparator(s, p);
    assert s[p + 1..p + 1] == "";
    TagCharsExtend(s, p);
  }

  /** One more letter, digit or separator keeps the prefix read so far valid. */
  lemma TagCharsExtend(s: string, p: nat)
    requires p < |s| && AllTagChars(s[..p]) && IsTagChar(s[p])
    ensures AllTagChars(s[..p + 1])
  {
    assert s[..p + 1] == s[..p] + [s[p]];
  }

  lemma ScanEnd(s: string, chunkStart: nat, recorded: seq<string>)
    requires Scanned(s, |s|, chunkStart, recorded)
    requires chunkStart < |s|
    ensures Subtags(s) == Some(recorded + [s[chunkStart..|s|]])
  {
    assert s[..|s|] == s;
  }

  /** An empty chunk at p, ended by a separator or the terminator, makes the identifier invalid. */
  lemma EmptyChunkRefused(s: string, p: nat, recorded: seq<string>)
    requires p <= |s|
    requires p == |s| || IsSubtagSeparator(s[p])
    requires Split(s[..p]) == recorded + [s[p..p]]
    ensures Subtags(s) == None
  {
    assert Split(s[..p])[|recorded|] == "";
    if p == |s| {
      assert s[..p] == s;
    } else {
      ClosedPieceKept(s, p, "");
    }
  }

  /** Stores one (start, length) pair after the numChunks already recorded: the subtag s[start..start + length]. */
  method RecordChunk(chunks: array<nat>, chunkLengths: array<nat>, numChunks: nat, start: nat, length: nat,
                     ghost s: string, ghost recorded: seq<string>)
    requires chunks != chunkLengths
    requires numChunks < chunks.Length && numChunks < chunkLengths.Length
    requires ChunksMatch(s, chunks[..numChunks], chunkLengths[..numChunks], recorded)
    requires 0 < length && start + length <= |s| && (start + length == |s| || IsSubtagSeparator(s[start + length]))
    modifies chunks, chunkLengths
    ensures chunks[..numChunks + 1] == old(chunks[..numChunks]) + [start]
    ensures chunkLengths[..numChunks + 1] == old(chunkLengths[..numChunks]) + [length]
    ensures ChunksMatch(s, chunks[..numChunks + 1], chunkLengths[..numChunks + 1], recorded + [s[start..start + length]])
  {
    ChunksMatchSnoc(s, chunks[..numChunks], chunkLengths[..numChunks], recorded, start, length);
    chunks[numChunks] := start;
    chunkLengths[numChunks] := length;
  }

  /**
   * The first loop of UnicodeLocaleIDToLocaleChunks: records where each
   * subtag starts and how long it is, in arrays of 1 + strlen/2 entries,
   * failing on an empty subtag or a character that is not alphanumeric.
   */
  method Tokenize(s: string) returns (ok: bool, chunks: array<nat>, chunkLengths: array<nat>, numChunks: nat)
    requires IsCString(s) && |s| > 0
    ensures chunks.Length == chunkLengths.Length == 1 + |s| / 2
    ensures ok <==> Subtags(s).Some?
    ensures numChunks <= chunks.Length
    ensures ok ==> ChunksMatch(s, chunks[..numChunks], chunkLengths[..numChunks], Subtags(s).value)
  {
    var maxNumChunks := 1 + |s| / 2;
    chunks := new nat[maxNumChunks];
    chunkLengths := new nat[maxNumChunks];
    numChunks := 0;
    var badData := false;
    var chunkStart: nat := 0;
    var p: nat := 0;
    ghost var recorded: seq<string> := [];
    assert s[..0] == [];
    while !badData
      invariant p <= |s|
      invariant 2 * numChunks <= chunkStart <= p
      invariant ChunksMatch(s, chunks[..numChunks], chunkLengths[..numChunks], recorded)
      invariant !badData ==> Scanned(s, p, chunkStart, recorded)
      invariant badData ==> Subtags(s) == None
      decreases |s| - p, if badData then 0 else 1
    {
      var c := At(s, p);
      if IsSubtagSeparator(c) || c == NUL {
        if p == chunkStart {
          // empty chunk
          badData := true;
          EmptyChunkRefused(s, p, recorded);
        } else {
          RecordChunk(chunks, chunkLengths, numChunks, chunkStart, p - chunkStart, s, recorded);
          numChunks := numChunks + 1;
          if c == NUL {
            ScanEnd(s, chunkStart, recorded);
          } else {
            ScanSeparator(s, p, chunkStart, recorded);
          }
          recorded := recorded + [s[chunkStart..p]];
          chunkStart := p + 1;
        }
      } else if !IsAlnum(c) {
        // invalid character
        badData := true;
        BadCharRefused(s, p);
      } else {
        ScanChar(s, p, chunkStart, recorded);
      }
      if c == NUL {
        break;
      }
      p := p + 1;
    }
    ok := !badData;
  }

  /**
   * The first chunks: "root" as the language; otherwise a language of
   * length 2 or 3, then a script (alone in first place if there is no
   * language). Gives the index of the next unread chunk.
   */
  method ClassifyFirstChunks(s: string, chunks: array<nat>, chunkLengths: array<nat>, numChunks: nat, ghost tags: seq<string>)
    returns (badData: bool, result: LocaleChunks, nextChunk: nat)
    requires numChunks <= chunks.Length && numChunks <= chunkLengths.Length
    requires ChunksMatch(s, chunks[..numChunks], chunkLengths[..numChunks], tags) && |tags| > 0
    ensures badData <==> ClassifyHead(tags).None?
    ensures !badData ==> ClassifyHead(tags) == Some((result, nextChunk))
  {
    result := ConstructLocaleChunks();
    badData := false;
    var start, len := chunks[0], chunkLengths[0];
    ChunkText(s, chunks[..numChunks], chunkLengths[..numChunks], tags, 0);
    if len == 4 && s[start..start + 4] == "root" {
      result := result.(language := Some("root"));
      nextChunk := 1;
    } else {
      if 2 <= len <= 3 {
        if IsAlpha(s[start]) && IsAlpha(s[start + 1]) && (len == 2 || IsAlpha(s[start + 2])) {
          var language := StrNDup(s, start, len);
          result := result.(language := Some(language));
        }
        if result.language.None? {
          badData := true;
        }
        nextChunk := 1;
      } else {
        nextChunk := 0;
      }
      ghost var afterLanguage := nextChunk;
      ghost var isScript := nextChunk < |tags| && IsScriptSubtag(tags[nextChunk]);
      if nextChunk < numChunks {
        ChunkText(s, chunks[..numChunks], chunkLengths[..numChunks], tags, nextChunk);
      }
      if nextChunk < numChunks && chunkLengths[nextChunk] == 4 && ScriptAt(s, chunks[nextChunk]) {
        var script := StrNDup(s, chunks[nextChunk], 4);
        result := result.(script := Some(script));
        nextChunk := nextChunk + 1;
      } else if nextChunk == 0 {
        badData := true;
      }
      assert nextChunk == afterLanguage + (if isScript then 1 else 0);
    }
  }

  /** Chunk i of the arrays is subtag i, character by character. */
  lemma ChunkText(s: string, starts: seq<nat>, lens: seq<nat>, tags: seq<string>, i: nat)
    requires ChunksMatch(s, starts, lens, tags) && i < |tags|
    ensures starts[i] + lens[i] <= |s| && |tags[i]| == lens[i]
    ensures s[starts[i]..starts[i] + lens[i]] == tags[i]
    ensures forall j | 0 <= j < lens[i] :: tags[i][j] == s[starts[i] + j]
  {
  }

  /** Four letters from index start on. */
  predicate ScriptAt(s: string, start: nat)
    requires start + 4 <= |s|
  {
    IsAlpha(s[start]) && IsAlpha(s[start + 1]) && IsAlpha(s[start + 2]) && IsAlpha(s[start + 3])
  }

  /**
   * The optional region chunk. The 3-character case reads index 3 of the
   * chunk, which is the separator or terminator after it.
   */
  method ClassifyRegionChunk(s: string, chunks: array<nat>, chunkLengths: array<nat>, numChunks: nat, ghost tags: seq<string>,
                             result: LocaleChunks, nextChunk: nat)
    returns (badData: bool, result': LocaleChunks, nextChunk': nat)
    requires IsCString(s)
    requires numChunks <= chunks.Length && numChunks <= chunkLengths.Length
    requires ChunksMatch(s, chunks[..numChunks], chunkLengths[..numChunks], tags)
    requires nextChunk < numChunks && result.territory.None?
    ensures badData <==> ClassifyRegion(tags, result, nextChunk).None?
    ensures !badData ==> ClassifyRegion(tags, result, nextChunk) == Some((result', nextChunk'))
  {
    badData, result', nextChunk' := false, result, nextChunk;
    var start, len := chunks[nextChunk], chunkLengths[nextChunk];
    assert s[start..start + len] == tags[nextChunk];
    if len == 2 {
      if IsAlpha(s[start]) && IsAlpha(s[start + 1]) {
        var territory := StrNDup(s, start, len);
        result' := result'.(territory := Some(territory));
      }
      if result'.territory.None? {
        badData := true;
      }
      nextChunk' := nextChunk' + 1;
    } else if len == 3 {
      if IsDigit(s[start]) && IsDigit(s[start + 1]) && IsDigit(At(s, start + 3)) {
        var territory := StrNDup(s, start, len);
        result' := result'.(territory := Some(territory));
      }
      if result'.territory.None? {
        badData := true;
      }
      nextChunk' := nextChunk' + 1;
    }
  }

  /**
   * The validation loop over the remaining chunks: the switch on the chunk
   * length, with lengths 8 down to 5 falling through.
   */
  method CheckVariants(s: string, chunks: array<nat>, chunkLengths: array<nat>, numChunks: nat, ghost tags: seq<string>,
                       initialVariantChunk: nat)
    returns (badData: bool)
    requires numChunks <= chunks.Length && numChunks <= chunkLengths.Length
    requires ChunksMatch(s, chunks[..numChunks], chunkLengths[..numChunks], tags)
    requires initialVariantChunk <= numChunks
    ensures !badData <==> forall k | initialVariantChunk <= k < |tags| :: IsVariantSubtag(tags[k])
  {
    badData := false;
    var nextChunk := initialVariantChunk;
    while !badData && nextChunk < numChunks
      invariant initialVariantChunk <= nextChunk <= numChunks
      invariant !badData ==> forall k | initialVariantChunk <= k < nextChunk :: IsVariantSubtag(tags[k])
      invariant badData ==> initialVariantChunk < nextChunk && !IsVariantSubtag(tags[nextChunk - 1])
    {
      var start, len := chunks[nextChunk], chunkLengths[nextChunk];
      ChunkText(s, chunks[..numChunks], chunkLengths[..numChunks], tags, nextChunk);
      if len == 8 && !IsAlnum(s[start + 7]) {
        badData := true;
      }
      if 7 <= len <= 8 && !IsAlnum(s[start + 6]) {
        badData := true;
      }
      if 6 <= len <= 8 && !IsAlnum(s[start + 5]) {
        badData := true;
      }
      if 5 <= len <= 8 && !IsAlnum(s[start + 4]) {
        badData := true;
      }
      if len == 4 && !(IsDigit(s[start]) && IsAlnum(s[start + 1]) && IsAlnum(s[start + 2]) && IsAlnum(s[start + 3])) {
        badData := true;
      }
      nextChunk := nextChunk + 1;
    }
  }

  /** The copy loop: one strndup per remaining chunk into an array of variantCount strings. */
  method CopyVariants(s: string, chunks: array<nat>, chunkLengths: array<nat>, numChunks: nat, ghost tags: seq<string>,
                      initialVariantChunk: nat)
    returns (variants: seq<string>)
    requires numChunks <= chunks.Length && numChunks <= chunkLengths.Length
    requires ChunksMatch(s, chunks[..numChunks], chunkLengths[..numChunks], tags)
    requires initialVariantChunk <= numChunks
    ensures variants == tags[initialVariantChunk..]
  {
    var variantCount := numChunks - initialVariantChunk;
    var copies := new string[variantCount];
    var nextChunk := initialVariantChunk;
    while nextChunk < numChunks
      invariant initialVariantChunk <= nextChunk <= numChunks
      invariant copies[..nextChunk - initialVariantChunk] == tags[initialVariantChunk..nextChunk]
    {
      var copy := StrNDup(s, chunks[nextChunk], chunkLengths[nextChunk]);
      copies[nextChunk - initialVariantChunk] := copy;
      nextChunk := nextChunk + 1;
    }
    variants := copies[..];
  }

  /** UnicodeLocaleIDToLocaleChunks: NULL for a NULL, empty or invalid identifier. */
  method UnicodeLocaleIDToLocaleChunks(locale: Option<string>) returns (r: Option<LocaleChunks>)
    requires locale.Some? ==> IsCString(locale.value)
    ensures r == (if locale.Some? then ParseUnicode(locale.value) else None)
  {
    if locale.None? || |locale.value| == 0 {
      return None;
    }
    var s := locale.value;
    var ok, chunks, chunkLengths, numChunks := Tokenize(s);
    if !ok {
      return None;
    }
    ghost var tags := Subtags(s).value;
    assert numChunks == |tags|;
    var badData, result, nextChunk := ClassifyFirstChunks(s, chunks, chunkLengths, numChunks, tags);
    HeadIsBare(tags);
    if !badData && nextChunk < numChunks {
      badData, result, nextChunk := ClassifyRegionChunk(s, chunks, chunkLengths, numChunks, tags, result, nextChunk);
    }
    if !badData {
      assert ClassifyRegion(tags, ClassifyHead(tags).value.0, ClassifyHead(tags).value.1) == Some((result, nextChunk));
      assert result.variants == [];
      var initialVariantChunk := nextChunk;
      badData := CheckVariants(s, chunks, chunkLengths, numChunks, tags, initialVariantChunk);
      if !badData && numChunks - initialVariantChunk != 0 {
        var variants := CopyVariants(s, chunks, chunkLengths, numChunks, tags, initialVariantChunk);
        result := result.(variants := variants);
      }
      assert !badData ==> result.variants == tags[initialVariantChunk..];
      assert !badData ==> Classify(tags) == Some(result);
      assert badData ==> Classify(tags) == None;
    }
    if badData {
      r := None;
    } else {
      r := Some(result);
    }
  }

  /**
   * LocaleChunksToUnicodeLocaleID: the length is summed as the C code sums
   * it, then the buffer of that size is filled with strcpy and strcat.
   */
  method LocaleChunksToUnicodeLocaleID(lc: Option<LocaleChunks>) returns (r: Option<string>)
    ensures r == (if lc.Some? then UnicodeForm(lc.value) else None)
  {
    if lc.None? || (lc.value.language.None? && lc.value.script.None?) {
      return None;
    }
    var c := lc.value;
    ghost var head := if c.language.Some? then c.language.value + Part('_', c.script) else c.script.value;
    var length := 1;
    if c.language.Some? && c.script.Some? {
      length := length + |c.language.value| + 1 + |c.script.value|;
    } else {
      length := length + |if c.language.Some? then c.language.value else c.script.value|;
    }
    if c.territory.Some? {
      length := length + 1 + |c.territory.value|;
    }
    var variantsLength := VariantsLength(c.variants);
    length := length + variantsLength;
    var buffer := new char[length];
    var end: nat;
    if c.language.Some? {
      end := StrCat(buffer, 0, c.language.value);
      if c.script.Some? {
        end := StrCat(buffer, end, "_");
        end := StrCat(buffer, end, c.script.value);
      }
    } else {
      end := StrCat(buffer, 0, c.script.value);
    }
    assert buffer[..end] == head;
    end := StrCatPart(buffer, end, '_', c.territory);
    end := StrCatVariants(buffer, end, c.variants);
    // the terminator lands in the last cell of the buffer
    assert buffer[end] == NUL && end == length - 1;
    r := Some(buffer[..end]);
  }

  /** The loop summing `1 + strlen(variant)` over the variants. */
  method VariantsLength(variants: seq<string>) returns (length: nat)
    ensures length == |Prefixed(variants, '_')|
  {
    length := 0;
    var i := 0;
    while i < |variants|
      invariant i <= |variants|
      invariant length == |Prefixed(variants[..i], '_')|
    {
      assert variants[..i + 1][..i] == variants[..i];
      length := length + 1 + |variants[i]|;
      i := i + 1;
    }
    assert variants[..i] == variants;
  }

  /** The loop appending `"_"` and the variant for each variant. */
  method StrCatVariants(buffer: array<char>, end: nat, variants: seq<string>) returns (end': nat)
    requires end + |Prefixed(variants, '_')| < buffer.Length && buffer[end] == NUL
    modifies buffer
    ensures end' == end + |Prefixed(variants, '_')|
    ensures buffer[..end'] == old(buffer[..end]) + Prefixed(variants, '_')
    ensures buffer[end'] == NUL
  {
    ghost var prefix := buffer[..end];
    end' := end;
    var i := 0;
    assert variants[..0] == [];
    while i < |variants|
      invariant i <= |variants|
      invariant end' == end + |Prefixed(variants[..i], '_')|
      invariant |Prefixed(variants[..i], '_')| <= |Prefixed(variants, '_')|
      invariant buffer[..end'] == prefix + Prefixed(variants[..i], '_')
      invariant buffer[end'] == NUL
    {
      PrefixedStep(variants, i, '_');
      end' := StrCat(buffer, end', "_");
      end' := StrCat(buffer, end', variants[i]);
      i := i + 1;
    }
    assert variants[..i] == variants;
  }

  /** The head of the classification has no region and no variants yet. */
  lemma HeadIsBare(tags: seq<string>)
    requires |tags| > 0
    ensures ClassifyHead(tags).Some? ==> ClassifyHead(tags).value.0.territory.None?
    ensures ClassifyHead(tags).Some? ==> ClassifyHead(tags).value.0.variants == []
    ensures forall lc, n: nat | n <= |tags| && ClassifyRegion(tags, lc, n).Some? ::
      ClassifyRegion(tags, lc, n).value.0.variants == lc.variants
  {
  }

  /** Appending variant i to those before it, and the result is still no longer than the whole. */
  lemma PrefixedStep(vs: seq<string>, i: nat, sep: char)
    requires i < |vs|
    ensures Prefixed(vs[..i + 1], sep) == Prefixed(vs[..i], sep) + [sep] + vs[i]
    ensures |Prefixed(vs[..i + 1], sep)| <= |Prefixed(vs, sep)|
  {
    assert vs[..i + 1][..i] == vs[..i];
    assert vs[..i + 1] + vs[i + 1..] == vs;
    PrefixedAppend(vs[..i + 1], vs[i + 1..], sep);
  }
}

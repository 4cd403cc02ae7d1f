/** The LocaleChunks record shared by both parsers and both serializers. */
module Locale {

  import opened Wrappers
  import opened CStrings

  /**
   * Every chunk a locale identifier can carry. A NULL field is None; the
   * variant list and its variantCount are one sequence.
   */
  datatype LocaleChunks = LocaleChunks(
    language: Option<string>,
    territory: Option<string>,
    codeset: Option<string>,
    modifier: Option<string>,
    script: Option<string>,
    variants: seq<string>)

  /** ConstructLocaleChunks: the zero-filled record (calloc), every field NULL. */
  function ConstructLocaleChunks(): (lc: LocaleChunks)
    ensures lc.language.None? && lc.territory.None? && lc.codeset.None?
    ensures lc.modifier.None? && lc.script.None? && |lc.variants| == 0
  {
    LocaleChunks(None, None, None, None, None, [])
  }

  /** A chunk as the struct's comments require it: NULL, or non-empty (and alphanumeric). */
  predicate IsChunk(f: Option<string>) {
    f.None? || (|f.value| > 0 && AllAlnum(f.value))
  }

  /** `sep` followed by the field when it is set; nothing when it is NULL. */
  function Part(sep: char, f: Option<string>): string {
    if f.Some? then [sep] + f.value else ""
  }

  /** Each string of vs preceded by `sep`, in order: what a strcat loop over a list builds. */
  function Prefixed(vs: seq<string>, sep: char): string {
    if |vs| == 0 then "" else Prefixed(vs[..|vs| - 1], sep) + [sep] + vs[|vs| - 1]
  }

  lemma {:induction false} PrefixedAppend(a: seq<string>, b: seq<string>, sep: char)
    ensures Prefixed(a + b, sep) == Prefixed(a, sep) + Prefixed(b, sep)
    decreases |b|
  {
    if |b| > 0 {
      var b' := b[..|b| - 1];
      assert (a + b)[..|a + b| - 1] == a + b';
      PrefixedAppend(a, b', sep);
    } else {
      assert a + b == a;
    }
  }

  /** The strings of a non-empty list joined by `sep`. */
  function Joined(tags: seq<string>, sep: char): string
    requires |tags| > 0
  {
    tags[0] + Prefixed(tags[1..], sep)
  }

  lemma JoinedSnoc(tags: seq<string>, t: string, sep: char)
    requires |tags| > 0
    ensures Joined(tags + [t], sep) == Joined(tags, sep) + [sep] + t
  {
    assert (tags + [t])[1..] == tags[1..] + [t];
    PrefixedAppend(tags[1..], [t], sep);
    assert Prefixed([t], sep) == [sep] + t by {
      assert [t][..0] == [];
    }
  }

  /** `if (field) { strcat(buffer, sep); strcat(buffer, field); }` on a terminated buffer, which stays terminated. */
  method StrCatPart(buffer: array<char>, end: nat, sep: char, f: Option<string>) returns (end': nat)
    requires end + |Part(sep, f)| < buffer.Length && buffer[end] == NUL
    modifies buffer
    ensures end' == end + |Part(sep, f)|
    ensures buffer[..end'] == old(buffer[..end]) + Part(sep, f)
    ensures buffer[end'] == NUL
  {
    end' := end;
    if f.Some? {
      end' := StrCat(buffer, end', [sep]);
      end' := StrCat(buffer, end', f.value);
    }
  }
}

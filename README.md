# Locale identifiers, Gettext and Unicode forms

A Dafny model of `parse-locale-identifiers.c`, which turns a locale identifier
into a `LocaleChunks` record and back, in two notations:

- the Gettext form `language[_territory][.codeset][@modifier]`;
- the Unicode language identifier of Unicode Technical Standard #35 (LDML),
  section 3.1: `language-script-region-variant…` with `-` or `_` between subtags,
  written back with `_`.

The record is the datatype `Locale.LocaleChunks`: optional language, territory,
codeset, modifier and script, plus a sequence of variants. A C `NULL` is `None`,
and a C string is a Dafny `string` with no NUL character inside (`CStrings.IsCString`).
Reading the character at the string's length gives the terminator (`CStrings.At`).

Each of the four C functions is an imperative method that follows the C control
flow: pointers and cursors, the `separator` and `badData` flags, the `chunks` and
`chunkLengths` arrays, and `strndup`/`strcpy`/`strcat` into buffers. Each method
is proved equal to a specification function:

| C function | method | specification |
|---|---|---|
| `GettextLocaleIDToLocaleChunks` | `GettextEngine.GettextLocaleIDToLocaleChunks` | `Gettext.ParseGettext` |
| `LocaleChunksToGettextLocaleID` | `GettextEngine.LocaleChunksToGettextLocaleID` | `Gettext.GettextForm` |
| `UnicodeLocaleIDToLocaleChunks` | `UnicodeEngine.UnicodeLocaleIDToLocaleChunks` | `Unicode.ParseUnicode` |
| `LocaleChunksToUnicodeLocaleID` | `UnicodeEngine.LocaleChunksToUnicodeLocaleID` | `Unicode.UnicodeForm` |

The specifications are then characterised by lemmas.

- Gettext: the accepted strings are exactly those satisfying the character-level
  predicate `Gettext.IsGettextID`. A parse followed by the serializer reproduces
  the input, and the serializer's output parses back to the same record, for every record of the
  parser's shape (`Gettext.IsGettextRecord`).
- Unicode: an accepted string is cut into alphanumeric subtags
  (`UnicodeSubtags.Subtags`). Parsing is sound and complete with respect to the
  record shape `Unicode.IsUnicodeRecord`. The serializer writes back the input
  with every `-` turned into `_`.

The two serializers allocate exactly the number of bytes the C code computes,
and the proof shows that every `strcat` fits in that buffer, terminator included,
that the buffer stays terminated after each one, and that the final terminator
lands in its last cell.
The tokenizer's arrays of `1 + strlen/2` entries are proved never to overflow.
The `TestVectors` lemmas take every identifier of the C test driver (lines 536-576)
and prove both verdicts it expects, with the record each accepting parser returns.
The driver's `NULL` identifier is covered by the parse methods' own contracts.
Three more identifiers, which the driver does not use, exercise the `root`
branch and the region test.

Where the code and the LDML grammar differ, the model follows the code:

- A 3-character region is tested for digits at indices 0, 1 and 3. Index 3 is
  the separator or terminator after the subtag, never a digit, so every
  3-character region is refused (`es-419` is refused).
- Variants are checked loosely. Only a 4-character subtag that does not start
  with a digit is refused. Subtags of any other length pass, including lengths
  1–3 and 9 or more (`Unicode.VariantTestIsLoose`).
- `root` is stored as the language `"root"`. There is no separate root flag, and
  no lookup table translating scripts or modifiers.

## Model

| member | source | states |
|---|---|---|
| CStrings.StrNDup | parse-locale-identifiers.c:14-25 | the copy holds exactly the `n` characters of `s` that start at `from` |
| CStrings.StrCat | parse-locale-identifiers.c:192-204 | strcpy/strcat: the buffer then holds the old contents followed by the piece, and a terminator right after them; the piece must fit with its terminator |
| Locale.ConstructLocaleChunks | parse-locale-identifiers.c:52-55 | the new record has every field unset and no variants |
| Locale.StrCatPart | parse-locale-identifiers.c:193-204 | an optional field appends its separator and value, and an absent field appends nothing |
| GettextEngine.GettextLocaleIDToLocaleChunks | parse-locale-identifiers.c:96-168 | the character scan returns NULL for a NULL input, and otherwise exactly the result of `Gettext.ParseGettext` |
| GettextEngine.StoreChunk | parse-locale-identifiers.c:122-155 | the chunk after a separator is stored if and only if it is non-empty and neither its field nor a later field is set yet; it is then stored, as a copy, in the field its separator names and nothing else changes; a refusal means the remaining segments are refused, and a store leaves the parse of the rest unchanged |
| GettextEngine.LocaleChunksToGettextLocaleID | parse-locale-identifiers.c:174-208 | NULL without a record or a language; otherwise the buffer of the computed length holds exactly `Gettext.GettextForm` |
| Gettext.GettextAcceptance | parse-locale-identifiers.c:96-168 | the parser accepts `s` if and only if it is non-empty, contains only letters, digits and `_ . @`, does not start with a separator, has a non-separator after every separator, and uses separators in strictly increasing order `_` < `.` < `@` |
| Gettext.GettextRejectsMalformed | parse-locale-identifiers.c:105-166 | an empty language, an empty segment (doubled or trailing separator), or a character outside `[A-Za-z0-9_.@]` makes the parse NULL |
| Gettext.GettextRejectsMisplaced | parse-locale-identifiers.c:129-153 | a separator whose field comes no later than an earlier separator's field (duplicated or misplaced territory, codeset or modifier) makes the parse NULL |
| Gettext.SegmentEnd | parse-locale-identifiers.c:105-110 | the scan for the end of a chunk stops at the first `_`, `.`, `@` or terminator, and nothing before it is a separator |
| Gettext.ParseFields | parse-locale-identifiers.c:122-155 | storing the chunks after the language never changes the language, script or variants, and never moves the furthest field set back; a field already set keeps its value, and once the modifier is set nothing more is accepted |
| Gettext.GettextRoundTrip | parse-locale-identifiers.c:179-205 | a parsed record has a non-empty alphanumeric language, alphanumeric optional fields, no script and no variants, and it serializes back to the very input |
| Gettext.GettextFormParses | parse-locale-identifiers.c:111-153 | every record of that shape serializes to a string that parses back to the same record |
| Gettext.ParseFieldsRoundTrip | parse-locale-identifiers.c:122-156 | the segments after the language, stored one by one, rebuild the scanned text when serialized |
| Gettext.ParseFieldsOrdered | parse-locale-identifiers.c:129-153 | when the remaining segments are accepted, each separator is followed by a segment and the separators strictly increase in rank |
| Gettext.ParseFieldsComplete | parse-locale-identifiers.c:129-153 | segments with increasing separators and no empty chunk are always accepted |
| UnicodeEngine.Tokenize | parse-locale-identifiers.c:225-260 | the arrays have `1 + strlen/2` entries and are never overrun; the scan succeeds iff `UnicodeSubtags.Subtags` does, and then chunk `i` is subtag `i`, ended by a separator or the terminator |
| UnicodeEngine.RecordChunk | parse-locale-identifiers.c:244-246 | appends the chunk start and length to the arrays, and the recorded chunks then hold one more subtag, the text from `start` to the next separator |
| UnicodeEngine.ClassifyFirstChunks | parse-locale-identifiers.c:267-313 | root, language and script are taken exactly as `Unicode.ClassifyHead` takes them, and the call fails when it fails |
| UnicodeEngine.ClassifyRegionChunk | parse-locale-identifiers.c:314-342 | the region slot, including the read at index 3 of a 3-character chunk, behaves exactly as `Unicode.ClassifyRegion` |
| UnicodeEngine.CheckVariants | parse-locale-identifiers.c:343-384 | the fall-through switch accepts the remaining chunks iff every one passes `Unicode.IsVariantSubtag` |
| UnicodeEngine.CopyVariants | parse-locale-identifiers.c:386-400 | the variants are the remaining subtags, in input order, `numChunks - initialVariantChunk` of them |
| UnicodeEngine.UnicodeLocaleIDToLocaleChunks | parse-locale-identifiers.c:214-415 | NULL for a NULL or empty input; otherwise exactly `Unicode.ParseUnicode` |
| UnicodeEngine.LocaleChunksToUnicodeLocaleID | parse-locale-identifiers.c:421-461 | NULL without a record, or when language and script are both absent; otherwise the buffer of the computed length holds exactly `Unicode.UnicodeForm` |
| UnicodeEngine.VariantsLength | parse-locale-identifiers.c:436-438 | the summed `1 + strlen(variant)` is the length of the `_`-prefixed variants |
| UnicodeEngine.StrCatVariants | parse-locale-identifiers.c:454-457 | appends `_variant` for every variant, in order |
| UnicodeSubtags.BadCharRefused | parse-locale-identifiers.c:250-254 | a character other than a letter, a digit, `-` or `_` makes the identifier invalid |
| UnicodeSubtags.EmptySubtagRejected | parse-locale-identifiers.c:240-242 | a leading, trailing or doubled `-`/`_` makes the identifier invalid |
| UnicodeSubtags.Split | parse-locale-identifiers.c:235-247 | the identifier is cut at every `-` and `_` into at least one piece, and no piece holds a separator |
| UnicodeSubtags.Subtags | parse-locale-identifiers.c:235-260 | a valid identifier yields at least one subtag, and every subtag is non-empty and alphanumeric |
| UnicodeSubtags.SubtagCountBound | parse-locale-identifiers.c:229 | a valid identifier has at most `1 + strlen/2` subtags, the size of the `chunks` arrays |
| UnicodeSubtags.SubtagsOfJoined | parse-locale-identifiers.c:235-260 | non-empty alphanumeric subtags joined by `-` or `_` are cut back into exactly those subtags |
| UnicodeSubtags.SplitJoin | parse-locale-identifiers.c:441-457 | joining the pieces of `s` with `_` gives `s` with every `-` replaced by `_` |
| Unicode.ClassifyHead | parse-locale-identifiers.c:267-313 | the index of the next unread subtag is at least 1 and within the subtags |
| Unicode.ClassifyRegion | parse-locale-identifiers.c:314-342 | the cursor does not move back and stays within the subtags |
| Unicode.ClassifyRegionSound | parse-locale-identifiers.c:314-342 | the region slot consumes either one 2-letter subtag, stored as the territory, or nothing; when it consumes nothing, the next subtag has neither 2 nor 3 characters |
| Unicode.ClassifyHeadSound | parse-locale-identifiers.c:267-313 | the subtags consumed first are the language and/or script, at least one of them set, and nothing else is set yet |
| Unicode.UnicodeRejectsFirstSubtag | parse-locale-identifiers.c:287-312 | a first subtag that is neither `root`, nor 2–3 letters, nor 4 letters makes the parse NULL |
| Unicode.Classify | parse-locale-identifiers.c:267-400 | a classified record has a language or a script, no codeset and no modifier, and its variants are the trailing subtags, each passing the variant test |
| Unicode.ClassifySound | parse-locale-identifiers.c:267-400 | a classified record has the parser's shape and its subtags, in order, are the input subtags |
| Unicode.ClassifyComplete | parse-locale-identifiers.c:267-400 | every record of that shape is classified from its own subtags |
| Unicode.UnicodeParseSound | parse-locale-identifiers.c:214-415 | a parsed record has the parser's shape, and the identifier's subtags are the record's language, script, territory and variants, in that order |
| Unicode.UnicodeParseComplete | parse-locale-identifiers.c:214-415 | any identifier whose subtags are those of a record of that shape parses to that record |
| Unicode.UnicodeFormJoins | parse-locale-identifiers.c:426-458 | the serializer writes language, script, territory and variants joined by `_`, and drops codeset and modifier |
| Unicode.UnicodeRoundTrip | parse-locale-identifiers.c:421-461 | serializing a parsed record gives the input with every `-` replaced by `_` |
| Unicode.UnicodeFormParses | parse-locale-identifiers.c:421-461 | every record of the parser's shape serializes to a string that parses back to it |
| Unicode.VariantTestIsLoose | parse-locale-identifiers.c:347-382 | on alphanumeric subtags, the variant test refuses exactly the 4-character ones that do not start with a digit |
| TestVectors.ItITUtf8Euro | parse-locale-identifiers.c:536 | `it_IT.utf8@euro`: Gettext reads language `it`, territory `IT`, codeset `utf8`, modifier `euro`; Unicode refuses it |
| TestVectors.ItITUtf8 | parse-locale-identifiers.c:537 | `it_IT.utf8`: Gettext reads language `it`, territory `IT`, codeset `utf8`; Unicode refuses it (the driver repeats it at line 539) |
| TestVectors.ItITEuro | parse-locale-identifiers.c:538 | `it_IT@euro`: Gettext reads language `it`, territory `IT`, modifier `euro`; Unicode refuses it |
| TestVectors.ItEuro | parse-locale-identifiers.c:540 | `it@euro`: Gettext reads language `it`, modifier `euro`; Unicode refuses it |
| TestVectors.ItUtf8 | parse-locale-identifiers.c:541 | `it.utf8`: Gettext reads language `it`, codeset `utf8`; Unicode refuses it |
| TestVectors.ItIT | parse-locale-identifiers.c:542 | `it_IT`: Gettext reads language `it`, territory `IT`; Unicode reads language `it`, territory `IT`, no variants (the driver repeats it at line 557) |
| TestVectors.It | parse-locale-identifiers.c:543 | `it`: Gettext reads language `it`; Unicode reads language `it`, no variants (the driver repeats it at line 561) |
| TestVectors.DashedItLatnITPosixNynorsk | parse-locale-identifiers.c:545 | `it-Latn-IT-POSIX-NYNORSK`: Gettext refuses it; Unicode reads language `it`, script `Latn`, territory `IT`, variants `POSIX`, `NYNORSK` |
| TestVectors.DashedItLatnITPosix | parse-locale-identifiers.c:546 | `it-Latn-IT-POSIX`: Gettext refuses it; Unicode reads language `it`, script `Latn`, territory `IT`, variant `POSIX` |
| TestVectors.DashedItLatnITNynorsk | parse-locale-identifiers.c:547 | `it-Latn-IT-NYNORSK`: Gettext refuses it; Unicode reads language `it`, script `Latn`, territory `IT`, variant `NYNORSK` |
| TestVectors.DashedItLatnIT | parse-locale-identifiers.c:548 | `it-Latn-IT`: Gettext refuses it; Unicode reads language `it`, script `Latn`, territory `IT`, no variants |
| TestVectors.DashedItLatnPosixNynorsk | parse-locale-identifiers.c:549 | `it-Latn-POSIX-NYNORSK`: Gettext refuses it; Unicode reads language `it`, script `Latn`, variants `POSIX`, `NYNORSK` |
| TestVectors.DashedItLatnPosix | parse-locale-identifiers.c:550 | `it-Latn-POSIX`: Gettext refuses it; Unicode reads language `it`, script `Latn`, variant `POSIX` |
| TestVectors.DashedItLatnNynorsk | parse-locale-identifiers.c:551 | `it-Latn-NYNORSK`: Gettext refuses it; Unicode reads language `it`, script `Latn`, variant `NYNORSK` |
| TestVectors.DashedItLatn | parse-locale-identifiers.c:552 | `it-Latn`: Gettext refuses it; Unicode reads language `it`, script `Latn`, no variants |
| TestVectors.DashedItITPosixNynorsk | parse-locale-identifiers.c:553 | `it-IT-POSIX-NYNORSK`: Gettext refuses it; Unicode reads language `it`, territory `IT`, variants `POSIX`, `NYNORSK` |
| TestVectors.DashedItITPosix | parse-locale-identifiers.c:554 | `it-IT-POSIX`: Gettext refuses it; Unicode reads language `it`, territory `IT`, variant `POSIX` |
| TestVectors.DashedItITNynorsk | parse-locale-identifiers.c:555 | `it-IT-NYNORSK`: Gettext refuses it; Unicode reads language `it`, territory `IT`, variant `NYNORSK` |
| TestVectors.DashedItIT | parse-locale-identifiers.c:556 | `it-IT`: Gettext refuses it; Unicode reads language `it`, territory `IT`, no variants |
| TestVectors.DashedItPosixNynorsk | parse-locale-identifiers.c:558 | `it-POSIX-NYNORSK`: Gettext refuses it; Unicode reads language `it`, variants `POSIX`, `NYNORSK` |
| TestVectors.DashedItPosix | parse-locale-identifiers.c:559 | `it-POSIX`: Gettext refuses it; Unicode reads language `it`, variant `POSIX` |
| TestVectors.DashedItNynorsk | parse-locale-identifiers.c:560 | `it-NYNORSK`: Gettext refuses it; Unicode reads language `it`, variant `NYNORSK` |
| TestVectors.DashedLatnITPosixNynorsk | parse-locale-identifiers.c:563 | `Latn-IT-POSIX-NYNORSK`: Gettext refuses it; Unicode reads script `Latn`, territory `IT`, variants `POSIX`, `NYNORSK` |
| TestVectors.DashedLatnITPosix | parse-locale-identifiers.c:564 | `Latn-IT-POSIX`: Gettext refuses it; Unicode reads script `Latn`, territory `IT`, variant `POSIX` |
| TestVectors.DashedLatnITNynorsk | parse-locale-identifiers.c:565 | `Latn-IT-NYNORSK`: Gettext refuses it; Unicode reads script `Latn`, territory `IT`, variant `NYNORSK` |
| TestVectors.DashedLatnIT | parse-locale-identifiers.c:566 | `Latn-IT`: Gettext refuses it; Unicode reads script `Latn`, territory `IT`, no variants |
| TestVectors.DashedLatnPosixNynorsk | parse-locale-identifiers.c:567 | `Latn-POSIX-NYNORSK`: Gettext refuses it; Unicode reads script `Latn`, variants `POSIX`, `NYNORSK` |
| TestVectors.DashedLatnPosix | parse-locale-identifiers.c:568 | `Latn-POSIX`: Gettext refuses it; Unicode reads script `Latn`, variant `POSIX` |
| TestVectors.DashedLatnNynorsk | parse-locale-identifiers.c:569 | `Latn-NYNORSK`: Gettext refuses it; Unicode reads script `Latn`, variant `NYNORSK` |
| TestVectors.Latn | parse-locale-identifiers.c:570 | `Latn`: Gettext reads language `Latn`; Unicode reads script `Latn`, no variants |
| TestVectors.EmptyID | parse-locale-identifiers.c:573 | `""` is refused by both parsers |
| TestVectors.SpaceID | parse-locale-identifiers.c:574 | `" "` is refused by both parsers |
| TestVectors.TwoSpacesID | parse-locale-identifiers.c:575 | `"  "` is refused by both parsers |
| TestVectors.FooBarBazID | parse-locale-identifiers.c:576 | `foo@bar@baz` is refused by both parsers: Gettext for the second modifier, Unicode for the `@` |
| TestVectors.RootWithRegionID | parse-locale-identifiers.c:268-275 | not a driver identifier: `root-IT` parses with language `root` and territory `IT` |
| TestVectors.RootWithScriptID | parse-locale-identifiers.c:268-275 | not a driver identifier: `root-Latn` is refused, as no script is read after root and `Latn` fails the 4-character variant test |
| TestVectors.NumericRegionID | parse-locale-identifiers.c:328-341 | not a driver identifier: the three-digit region of `es-419` is refused |

## Left out

- Memory management is not modelled. This covers `malloc`, `calloc` and `free`, `FreeLocaleChunks` (lines 61-90), and every out-of-memory branch. Allocation is assumed to succeed. In particular, the `!result->language` test after the language check is read as "the first subtag is invalid".
- The test driver (`DumpLocaleChunks`, `Test`, `main`, lines 467-580) prints and exits. Its identifiers and expected verdicts are kept as the `TestVectors` lemmas.
- `isalnum`, `isalpha` and `isdigit` are the ASCII predicates of the C locale. Locale-dependent character classes are not modelled.
- The read past a 3-character chunk is modelled as reading the character after it: the separator, or the terminator at the end of the string. Raw pointer arithmetic is not modelled.
- UnicodeEngine.ClassifyFirstChunks: in C, the script may still be written after `badData` has been set by the language check. The model writes it too, but its result is left unspecified when the call fails. The caller discards that record, as the C code does.
- `strlen` in the serializers counts up to the first NUL. The model uses the length of each field and assumes fields have no NUL inside, which is what the parsers produce.
- The record's `variantCount` is the length of the `variants` sequence, not a separate field.
- Unicode.ClassifyHead and Unicode.ClassifyRegion only bound the cursor in their own contracts. Their full behaviour is stated by Unicode.ClassifySound and Unicode.ClassifyComplete.

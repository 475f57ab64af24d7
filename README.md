# anno, modelled in Dafny

A model of the annotation engine of `matryer/anno`. The engine scans text for
interesting tokens, records each one as a note `(Val, Start, Kind)`, and then
rewrites the text note by note.

- **Anno** (`anno.dfy`, from `anno.go`) covers notes and finders.
  - `FieldFunc` builds a finder from a per-field classifier. It splits the
    source at whitespace, asks the classifier about each field, and places
    every accepted value at its first occurrence in the whole source. When
    the value does not occur, it fails with `ErrNoMatch`.
  - `Many` runs finders in order, concatenates their notes and stops at the
    first error.
  - Both loops are methods (`FieldFind`, `ManyFind`), each proved equal to a
    recursive specification function. The properties are proved as lemmas
    about those functions.
- **Bytes** (`bytes.dfy`) holds the functions of Go's `bytes` and `strings`
  packages that the engine calls: `Index`, `HasPrefix`, `HasSuffix`,
  `TrimPrefix`, `Trim` and `Fields`. Each one has a contract that says what
  it computes.
- **Finders** (`finders.dfy`, from `finders.go`) holds punctuation trimming,
  the domain-suffix table, and the email, URL, mention and hashtag
  classifiers with their finders.
- **Emoji** (`emoji.dfy`, from `emoji/emoji.go`) holds the `:name:` finder
  and the lookup of a name in a code table.
- **Expander** (`expander.dfy`, from `expander.go`) rewrites the text one
  note at a time. After each rewrite it moves the start of every later note,
  in place in an `array<Note>`. The method is proved equal to a step-by-step
  specification. The main theorem is about notes that lie in the text in
  ascending order without overlapping: for them, the output is the original
  text with each span replaced independently. Notes whose kind has no
  rewrite never change the text, so the theorem also holds in any note order,
  as long as the notes that do have a rewrite meet the condition.
- **Web** (`web.dfy`, from `web/url.go`) models `ShortURL`, the string work
  done after the URL is parsed. The parser is a function parameter.
- **AnnoTest** and **EmojiTest** (`anno_test.dfy`, `emoji_test.dfy`) restate
  `TestFieldFinder` and the emoji tests over their own sentences: the fields,
  the notes found with their offsets, the sorted order and the expansion.

Go strings and byte slices are both `seq<byte>`, with `byte` the integers
0..255. A note's end offset is derived as `start + |val|`; `anno.go:86`
stores the same value when the note is created.

## Model

| member | source | states |
|---|---|---|
| `Anno.Error.Message` | anno.go:62-64 | The message of `ErrNoMatch(b)` is `no match for '` followed by `b` and a closing `'`. |
| `Anno.MessageNamesValue` | anno.go:62-64 | The message gives back the value that was not found: two `ErrNoMatch` errors with the same message hold the same value. |
| `Anno.FieldFind` | anno.go:71-93 | The field loop, with its early return on a missing value, yields exactly the outcome of the finder `FieldFunc(kind, fn)` on `src`. |
| `Anno.ScanOutcome` | anno.go:73-91 | A field scan yields one note per accepted field, in field order, at the value's first occurrence in `src`. If some accepted value occurs nowhere in `src`, the scan yields no notes and `ErrNoMatch` of the first such value. |
| `Anno.FieldNotesSound` | anno.go:76-88 | Every note of a successful scan has the finder's kind and lies inside `src`. `src[Start..End]` is its value, no earlier offset holds that value, and `String()` is those bytes. |
| `Anno.FieldNotesSameValueSameStart` | anno.go:77 | Two notes with equal values have equal starts, even when they come from different fields. |
| `Anno.FieldNotesInFieldOrder` | anno.go:75-90 | A successful scan yields exactly as many notes as there are accepted fields, and the notes' values are the accepted values in field order. |
| `Anno.FieldFuncErrNoMatch` | anno.go:77-81 | A scan fails if and only if some accepted value is absent from `src`. It then returns no notes, and `ErrNoMatch` of the first absent value. |
| `Anno.FieldFuncNeverFails` | anno.go:69-81 | A classifier that only records bytes contained in the field never makes the scan fail. |
| `Anno.AcceptedFromFields` | anno.go:74-77 | Every value accepted from a field of `src` occurs in `src`. |
| `Anno.FirstMissing` | anno.go:77-81 | The index of the first accepted value that does not occur, or -1 exactly when all of them occur. |
| `Anno.ManyFind` | anno.go:32-44 | The loop over the finders yields exactly the outcome of `Many(finders)` on `s`. |
| `Anno.ManyConcatenates` | anno.go:35-42 | When no finder fails, `Many` returns the concatenation of each finder's notes in argument order, and no error. |
| `Anno.ManyStopsAtFirstError` | anno.go:36-39 | When finder `k` is the first to fail, `Many` returns the notes of finders `0..k-1` and finder `k`'s error. The finders after `k` do not affect the result. |
| `Anno.SortByStart` | anno_test.go:89-106 | Sorting a note collection yields notes in ascending start order, as a permutation of the input, so every note keeps its value, start and kind. |
| `Anno.SortSortedIsIdentity` | anno_test.go:89-106 | Sorting a collection that is already in start order returns it unchanged. |
| `Bytes.Index` | anno.go:77 | -1 exactly when the value occurs nowhere; otherwise the first offset at which it occurs. |
| `Bytes.FieldsAreSlices` | anno.go:74 | Every field is non-empty, holds no whitespace, and is the bytes of the source at its offset. |
| `Bytes.FieldsCover` | anno.go:74 | Every non-whitespace byte of the source belongs to some field. |
| `Bytes.FieldsOfUnwords` | anno.go:74 | Splitting non-empty, space-free words joined by single spaces gives back exactly those words. |
| `Finders.TrimPunctuation` | finders.go:8-11 | The result is the contiguous slice of the input after its leading punctuation. Every stripped byte is one of `.?!'",;`, and a non-empty result neither starts nor ends with one of them. |
| `Finders.TrimPunctuationIdempotent` | finders.go:8-11 | Trimming twice is the same as trimming once. |
| `Finders.TrimPunctuationEmpty` | finders.go:8-11 | An empty trimmed result means the whole field was punctuation. |
| `Finders.TrimmedInField` | finders.go:8-11 | The trimmed result is found in the field. |
| `Finders.TldsAtLeastThreeBytes` | finders.go:13-35 | Every known domain suffix is at least three bytes long. |
| `Finders.EndsWithAny` | finders.go:43-47 | The suffix loop succeeds if and only if the field ends with one of the suffixes. |
| `Finders.EmailField` | finders.go:38-49 | The email classifier accepts if and only if the untrimmed field contains `@` and ends with a known suffix. It records the trimmed field. |
| `Finders.URLField` | finders.go:52-66 | The URL classifier rejects every field containing `@`. Otherwise it accepts if and only if the trimmed field starts with `http` or `www` or ends with a known suffix. It records the trimmed field. |
| `Finders.MentionField` | finders.go:68-72 | The mention classifier accepts if and only if the trimmed field starts with `@`. It records the trimmed field, since the second trim changes nothing. |
| `Finders.HashtagField` | finders.go:74-78 | The hashtag classifier accepts if and only if the trimmed field starts with `#`. It records the trimmed field. |
| `Finders.EmailsAndURLsDisjoint` | finders.go:38-66 | No field is accepted by both the email and the URL classifier. |
| `Finders.EmailValueFromField` | finders.go:38-49 | An accepted email value is a non-empty slice of its field. |
| `Finders.URLValueFromField` | finders.go:52-66 | An accepted URL value is a non-empty slice of its field. |
| `Finders.TagValueFromField` | finders.go:68-78 | An accepted mention or hashtag value is a non-empty slice of its field. |
| `Finders.BuiltinsRecordFromField` | finders.go:38-78 | Each of the four built-in classifiers records only bytes that its field contains. |
| `Finders.BuiltinsNeverFail` | finders.go:37-78 | `Emails`, `URLs`, `Mentions` and `Hashtags` never return `ErrNoMatch`. |
| `Finders.BuiltinsTogether` | anno.go:32-44 | Any sequence of the built-in finders, run through `Many`, yields no error and the concatenation of the finders' notes in argument order. |
| `Emoji.EmojiField` | emoji/emoji.go:10-13 | A field is accepted if and only if it begins and ends with `:`, so a lone `:` is accepted. The whole, untrimmed field is recorded. |
| `Emoji.FindSound` | emoji/emoji.go:10-13 | `Find` never fails. Each of its notes has kind `emoji`, begins and ends with `:`, and sits at the first occurrence of its value in the source. |
| `Emoji.AcceptedEmoji` | emoji/emoji.go:11-13 | Every accepted value begins and ends with `:`. |
| `Emoji.ExpandEmoji` | emoji/emoji.go:15-19 | With `emoji` mapped to `Expand`, expanding emoji notes that lie in the text in ascending order without overlapping cannot panic. Each `:name:` span is replaced by the table's entry for the name, or by nothing when the table lacks it, as a Go map lookup gives. |
| `Emoji.ExpandTwoEmoji` | emoji/emoji_test.go:27-30 | Two emoji notes in ascending order, each replaced by its table entry; the text before, between and after them stays. |
| `Expander.Step` | expander.go:11-24 | A note whose kind has no rewrite leaves the text and every note unchanged. A rewritten note turns the text into `s[..Start] + fn(Val) + s[End..]` and moves every later start by the length of `fn(Val)` less the length of `Val`. Notes up to the current one are unchanged, and no value, kind or count of notes changes. |
| `Expander.Expand` | expander.go:9-29 | The method's text and in-place array of notes end as the specification's state after every note has been processed in the given order. With no notes, the text comes back unchanged. |
| `Expander.ShiftLater` | expander.go:18-24 | The inner loop adds the offset to the start of every note after `i` and leaves the notes up to `i` unchanged. |
| `Expander.SumDeltaIgnoresStarts` | expander.go:15-20 | The total length change depends only on the notes' values and kinds. |
| `Expander.ExpandedLength` | expander.go:15-20 | The output length is the input length plus, for every rewritten note, the length of its rewrite less the length of its value. |
| `Expander.ExpandedKeepsNotes` | expander.go:18-24 | Expansion keeps the number, order, values and kinds of the notes, and keeps the notes already processed. Each later note ends at its original start plus the total length change of the rewritten notes before it, in any note order. |
| `Expander.RunReplaces` | expander.go:10-26 | The loop invariant: after the notes before `i`, the text is the output so far followed by the untouched original, and every later note has moved by the length change so far. |
| `Expander.ExpandReplacesIndependently` | expander.go:9-29 | For notes that lie in the text in ascending order without overlapping, Expand cannot panic. Its output is the original text with each span replaced independently, by its rewrite or by itself when its kind has none. |
| `Expander.RunFromTail` | expander.go:10-26 | The rest of a run depends only on the text and on the notes from the current one on. |
| `Expander.ExpandedHead` | expander.go:11-24 | A first note without a rewrite is skipped. A first note with one is rewritten and the later notes are moved; when it lies outside the text, Expand panics. |
| `Expander.MappedShift` | expander.go:11-14 | Moving the notes does not change which of them have a rewrite. |
| `Expander.ExpandSkipsUnmapped` | expander.go:11-14 | Notes whose kind has no rewrite change nothing: expanding all the notes, or only those with a rewrite, panics alike and gives the same text. |
| `Expander.ExpandReplacesMapped` | expander.go:9-29 | In any note order, when the notes that have a rewrite lie in the text in ascending order without overlapping, Expand cannot panic and replaces each of their spans independently. |
| `Expander.ExpandTwoOfThree` | expander_test.go:11-28 | For the test's note order (a mention and a URL with rewrites, then an earlier hashtag without one), both rewritten spans are replaced and the rest of the text stays. |
| `Expander.ExpandIdentity` | expander.go:10-26 | With rewrites that return their input, and notes that hold the text at their spans, the text and every note stay unchanged, whatever the order of the notes. |
| `AnnoTest.SentenceFields` | anno_test.go:56 | `A field finder will be able to find fields.` splits into its nine words. |
| `AnnoTest.FieldFinderFinds` | anno_test.go:53-87 | With the test's classifier, the finder returns `field` at 2, `able` at 23 and `find` at 8 (inside `finder`), all of kind `thiskind`, and no error. |
| `AnnoTest.FieldFinderSorted` | anno_test.go:89-106 | Sorting those notes by start gives `field` at 2, `find` at 8, `able` at 23. |
| `EmojiTest.EmojiFinds` | emoji/emoji_test.go:11-25 | In `:beer: makes me want to :smile: you know.`, `Find` returns `:beer:` at 0 and `:smile:` at 24, both of kind `emoji`, and no error. |
| `EmojiTest.EmojiExpands` | emoji/emoji_test.go:27-30 | With the table's glyphs for the two names, the expansion is the sentence with each name replaced by its glyph. |
| `EmojiTest.QuotedFindsNothing` | emoji/emoji_test.go:34-44 | `":beer:"?` is one field that does not begin with `:`, so `Find` returns no notes and no error. |
| `Web.WithScheme` | web/url.go:16-19 | `http://` is put in front exactly when the URL lacks `://`. |
| `Web.DisplayHost` | web/url.go:26-31 | The shown host is a suffix of the host, at most five bytes shorter. |
| `Web.DisplayHostStripsWww` | web/url.go:28-31 | A leading `www.` in any letter case is dropped, with or without a leading `/`. |
| `Web.DisplayHostStripsOnce` | web/url.go:29-31 | Only one `www.` is dropped. |
| `Web.DisplayHostKeeps` | web/url.go:28-31 | Only one leading `/` is dropped, and a host with neither a leading `/` nor `www.` is shown as it is. |
| `Web.Joined` | web/url.go:33-37 | The joined string starts with the shown host. |
| `Web.JoinedPath` | web/url.go:33-37 | The path is shown after a single `/` whether or not it had one, and an empty path adds nothing. |
| `Web.ShortURL` | web/url.go:10-44 | A parse failure returns the URL, with its scheme added, untruncated. A successful parse gives at most `maxlength` bytes: the joined string when it fits; otherwise exactly `maxlength` bytes, whose first `maxlength - 3` are the joined string's, followed by `...`. |
| `Web.ShortURLRootPath` | web/url_test.go:17-20 | Under the host and path net/url reports, `http://www.matryer.com/` shows as `matryer.com`. |
| `Web.ShortURLWithPath` | web/url_test.go:21-24 | `http://www.matryer.com/something` shows as `matryer.com/something`. |
| `Web.ShortURLNoScheme` | web/url_test.go:25-28 | `www.matryer.com/something` gets a scheme and shows as `matryer.com/something`. |
| `Web.ShortURLTruncated` | web/url_test.go:30-34 | `www.matryer.com/something/else/is/looking/pretty/long` shows as `matryer.com/something/else/is/lo...`. |

## Left out

- `bytes.Fields` splits at Unicode white space (for example U+0085 and U+00A0 in UTF-8). The model splits at the ASCII white-space bytes only: tab, line feed, vertical tab, form feed, carriage return and space.
- `net/url.Parse` is not part of this model. `ShortURL` takes it as a parameter that yields the host and path, or nothing on an error. The test cases state the parse result they rely on as a precondition.
- `strings.ToLower` is modelled for ASCII letters only.
- The emoji code table of `github.com/matryer/emoji` is not part of this model. `Emoji.Expand` takes it as a map parameter.
- `FindMany`, `FindManyString` and the `Notes` type and its sort are not defined in the modelled files. `FindMany(src, fs)` is taken to be `Many(fs)` run on `src`. The sort is taken to be a sort by start offset; `SortByStart` is an insertion sort.
- `FinderFunc.Find` and `FindString` are plain function application, since a Go string and its bytes are the same byte sequence here. `Note.String` returns the value. None of the three carries a contract of its own; `FieldNotesSound` states what `String()` returns for a found note.
- A Go panic is a precondition. `ShortURL` requires `maxlength >= 4`, and `Expand` requires every rewritten note to lie inside the text at the time it is rewritten.
- `Expand` works on an array of note values. Go's `[]*Note` may hold the same pointer twice, and then an update made through one index shows through the other; the model does not capture that aliasing.
- Concurrency: the modelled code has none.
- SortByStart: Go's `sort.Sort` is not stable, so for notes with equal starts the model fixes one order where Go's may differ. The contract states sortedness and permutation only, which hold either way.
- The scenarios that run the URL, email, mention and hashtag finders on a concrete sentence (`anno_test.go:11-51`, `finders_test.go`, `expander_test.go`) are not restated over their sentences. The general lemmas `BuiltinsTogether`, `FieldNotesSound` and `FieldNotesInFieldOrder` state the properties these tests exemplify; their concrete counts and offsets are not proved. `ExpandTwoOfThree` states the expander test for any text and notes of its shape.
- `emoji/emoji_test.go:34-50` expects a quoted emoji to be found at offset 1. The classifier of `emoji/emoji.go:11-13` does no trimming, so it cannot give that result; the model follows the code, and `QuotedFindsNothing` states what the code gives.

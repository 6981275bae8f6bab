# logsafe masker, modelled in Dafny

This project models the redaction engine of logsafe (`masker/masker.go`). The engine takes a Go value and makes a deep copy of it. In that copy, struct fields tagged `sensitive` have their strings overwritten with a mask glyph. The model has six modules:

- `Wrappers` (wrappers.dfy): the `Option` and `Result` types that stand for Go's nil values and `(value, error)` results.
- `GoStrings` (gostrings.dfy): `Split` with a one-byte separator and `Repeat`, which the masker calls from Go's `strings` package, and `Join`, the inverse of `Split`, used to state the round trip (`JoinSplit`, `SplitJoin`). Each Go byte is one `char`.
- `Policy` (policy.dfy): the string-masking policy `sanitize`, and how a `sensitive` tag selects the full or the partial level (`parseMaskLevel`, `applyMask`). It also holds the "should this field be masked" test, which compares the whole tag with `""` and `"false"`.
- `Redact` (redact.dfy): the Go values that `maskStruct` walks, as a closed datatype. Strings, scalars, structs, `[]string`, `[]struct`, other slices, pointers and opaque kinds each have a constructor, and a nil slice is `None`/`NilRecords`. The module also gives the zero values that `reflect.New` starts a clone from, and the clone itself as recursive functions (`MaskRecord`, `MaskField`, `MaskValue`). Its lemmas state what the clone keeps and what it hides.
- `Masker` (masker.dfy): the `masker` object as a class with its one mutable field `mask`. `MaskStruct` is an imperative method. It walks the fields with a loop, writes them into a freshly allocated array that starts at the zero values, and recurses into nested structs. Its `[]string` and `[]struct` cases are loops too. The method is proved equal to `MaskRecord`.
- `Scenarios` (scenarios.dfy): the two tests of `masker/masker_test.go`, stated over the model.

Behaviour worth knowing:

- Partial masking shows `20*len/100 + 1` leading bytes. For every non-empty string this is between 1 and its length, and it equals the length only for a one-byte string (`Policy.VisibleBounds`). So `"nuih"` becomes `"n***"`: strings of two to four bytes are not shown whole.
- A tag is full exactly when its second comma-separated token is `full`. The first token plays no part, so `"false,full"` masks a field in full, while `"full"` alone is partial.
- A pointer passed to `MaskSensitiveData` is returned as it is and is not masked. For a struct, the result is a pointer to the clone.
- A non-nil slice whose elements are neither strings nor structs is not copied. The clone keeps the zero value (nil) for that field.
- A nested struct field is cloned whatever its own tag says. Only the tags of string and `[]string` fields are read.

## Model

| member | source | states |
|---|---|---|
| GoStrings.Repeat | masker/masker.go:165 | `strings.Repeat(s, n)` has length `n * len(s)`; its contents are stated by `GoStrings.RepeatCopies` |
| GoStrings.RepeatCopies | masker/masker.go:165 | for a string `s` of any length, `strings.Repeat(s, n)` consists of `n` consecutive blocks of `len(s)` bytes, and each block is `s` |
| GoStrings.RepeatGlyph | masker/masker.go:165 | repeating a one-byte glyph `n` times gives `n` bytes, each of them that glyph |
| GoStrings.Split | masker/masker.go:143 | `strings.Split` yields at least one piece, and no piece contains the separator |
| GoStrings.JoinSplit | masker/masker.go:143 | joining the pieces of a split with the separator gives back the tag |
| GoStrings.SplitJoin | masker/masker.go:143 | splitting a join of separator-free pieces gives back the pieces (split and join are inverse) |
| GoStrings.SplitAtFirst | masker/masker.go:143 | at the first separator, the first piece is everything before it and the rest is the split of what follows |
| GoStrings.SplitNoSeparator | masker/masker.go:143 | a tag without a comma is a single token |
| Policy.VisibleBounds | masker/masker.go:168-169 | for every length >= 1 the visible prefix is between 1 and the length, so the slice is in range and the repeat count is never negative; it covers the whole string only at length 1 |
| Policy.Sanitize | masker/masker.go:158-170 | the empty string comes back unchanged at either level. At the full level the result is the glyph repeated once per byte of `v`, `len(v) * len(mask)` bytes in all. At any other level it is exactly the first `Visible(len(v))` bytes of `v` followed by the glyph repeated once per hidden byte |
| Policy.SanitizeCopies | masker/masker.go:164-169 | for a glyph of any length the masked part is copies of the glyph. At the full level the `j`-th block of `len(mask)` bytes is the glyph for every byte `j` of `v`. At any other level the same holds after the visible prefix, for every hidden byte |
| Policy.SanitizeGlyph | masker/masker.go:158-170 | with a one-byte glyph the length is kept, and byte `i` of the result is `v[i]` when the level is partial and `i` lies in the visible prefix, otherwise the glyph |
| Policy.SanitizeIdempotent | masker/masker.go:158-170 | with a one-byte glyph, masking an already masked string again at the same level changes nothing |
| Policy.PartialHidesLast | masker/masker.go:168-169 | partial masking of a string of two or more bytes always hides its last byte |
| Policy.SecondFullIsFull | masker/masker.go:141-154 | a tag whose second token is exactly "full" selects the full level |
| Policy.FullIsSecondFull | masker/masker.go:141-154 | a tag that selects the full level has exactly "full" as its second token |
| Policy.TagLevelFull | masker/masker.go:141-154 | the level parsed from a tag is always FullMask or PartialMask, and it is FullMask if and only if the tag's second comma-separated token is "full" |
| Policy.FirstTokenFull | masker/masker.go:143-150 | a tag remainder whose first token is "full" starts with "full", followed by its end or by a comma |
| Policy.FullAfter | masker/masker.go:149-154 | any comma-free first token followed by ",full" selects the full level |
| Policy.ShouldMaskExamples | masker/masker.go:79 | an absent tag and "false" leave a string alone; "true", "true,full" and "false,full" mask it (the whole tag is compared) |
| Policy.OneTokenExamples | masker/masker.go:149-154 | "true" and "full" alone both select the partial level |
| Policy.FullTagExamples | masker/masker.go:149-154 | "true,full" and "false,full" both select the full level |
| Policy.PartialExamples | masker/masker.go:168-169 | "abc123" gives "ab****" with "*" and "ab####" with "#"; "nuih" gives "n***"; "Something" gives "So*******" |
| Policy.MoreExamples | masker/masker.go:158-170 | "4312123453459909" gives "4312************"; "122345" gives "12****"; "child1" gives "ch****"; full masking of "abc1234" gives "*******" |
| Redact.OtherSliceDropped | masker/masker.go:97-127 | a non-nil slice whose elements are neither strings nor structs takes none of the slice branches, so the clone keeps that field nil, whatever the glyph and the tag |
| Redact.UntaggedValueCopied | masker/masker.go:78-131 | a field value holding nothing to mask copies into the clone unchanged at any depth (no string or []string under a masking tag, no non-nil slice of another element kind) |
| Redact.UntaggedRecordCopied | masker/masker.go:69-136 | a struct with nothing to mask is cloned into an equal struct |
| Redact.MaskStringHides | masker/masker.go:78-87 | with a one-byte glyph and a tag that asks for masking, a masked string keeps its length. If the tag's second token is "full", every byte is the glyph. Otherwise only the visible prefix of the original is shown, and every later byte is the glyph |
| Redact.MaskStringLength | masker/masker.go:78-87 | with a one-byte glyph a string field keeps its length whether or not it is masked |
| Redact.MaskStringIdempotent | masker/masker.go:78-87 | with a one-byte glyph, masking a string field's value twice equals masking it once |
| Redact.MaskValueIdempotent | masker/masker.go:69-133 | with a one-byte glyph, cloning the clone of a field value gives the same clone, at any depth |
| Redact.MaskRecordIdempotent | masker/masker.go:56-137 | with a one-byte glyph, cloning the clone of a struct gives the same clone |
| Redact.MaskValueSkeleton | masker/masker.go:69-133 | with a one-byte glyph the clone of a field value has its skeleton. That means the same kinds, field names, tags and scalar, pointer and opaque values; the same string lengths; and the same lengths and nil-ness of []string and []struct slices |
| Redact.MaskRecordSkeleton | masker/masker.go:56-137 | with a one-byte glyph the clone of a struct has the struct's skeleton: the same fields in the same order |
| Redact.MaskValueShape | masker/masker.go:69-133 | with any glyph, the clone of a field value has its shape: the same kinds, field names, tags, and scalar, pointer and opaque values, and the same lengths and nil-ness of []string and []struct slices. String contents and lengths may differ |
| Redact.MaskRecordShape | masker/masker.go:56-137 | with any glyph, the clone of a struct has the struct's shape: the same fields in the same order, each with its shape |
| Masker.Masker.constructor | masker/masker.go:29-34 | `New()` starts with the glyph "*" |
| Masker.Masker.SetMask | masker/masker.go:181-184 | `SetMask(c)` makes `c` the glyph, whatever its length, and changes nothing else |
| Masker.Masker.Sanitize | masker/masker.go:173-179 | `Sanitize(str, level)` masks in full for FullMask; every other level, including values that are neither FullMask nor PartialMask, masks partially, with the current glyph |
| Masker.Masker.MaskSensitiveData | masker/masker.go:36-46 | a struct yields a pointer to its clone; a value of any other kind, a pointer included, is returned unchanged; never an error |
| Masker.Masker.MaskStruct | masker/masker.go:56-137 | nil gives the "cannot mask nil value" error; a struct gives exactly `MaskRecord`'s clone, built by a loop that overwrites a zero-valued field array one field at a time, recursing into nested structs and propagating their errors |
| Masker.Masker.MaskStrings | masker/masker.go:101-113 | a non-nil `[]string` becomes a new slice of the same length, each element masked on its own under the field's tag (or copied when the tag does not ask for masking) |
| Masker.Masker.MaskRecords | masker/masker.go:115-127 | a non-nil `[]struct` becomes a slice of the same length holding the clones of the elements in order; no error arises |
| Scenarios.TestStructMasked | masker/masker_test.go:25-97 | masking `TestStruct` with "*" gives the test's expected struct, field by field |
| Scenarios.MaskSensitiveDataScenario | masker/masker_test.go:25-97 | a new masker returns a pointer to the expected struct and no error |
| Scenarios.SetMaskScenario | masker/masker_test.go:99-112 | "abc123" is "ab****" with a new masker and "ab####" after `SetMask("#")` |

## Left out

- Go reflection mechanics (`reflect.New`, `Field(i).Set`, `Interface()`) are not modelled as such. Field kinds are the constructors of `Redact.Value`, and the clone is built from values.
- Panics are not modelled: unexported fields, the `[]string` type assertion on a named slice type (masker/masker.go:103), and `maskStruct` on a non-struct. The last is excluded by the argument type `Option<Record>`.
- Pointer identity and aliasing are not modelled. A pointer, map or other opaque field is copied as a value, so the model does not show that the clone shares its target with the input. The clone's freshness is not stated either: the input is an immutable value, so it cannot be written.
- `interfaceToString` (masker/masker.go:186-188) is modelled as the identity on the field's string. It is given a `reflect.Value`, and `fmt` formats a copy of the field's value. That gives the string itself when the value method set of the field's type has no `Format`, `String` or `Error` method; pointer-receiver methods do not take part. For a named string type with such a value method, Go masks that method's output instead, whose length and contents may differ from the field's. The model does not capture that.
- Go's 64-bit `int` is not modelled: lengths are unbounded, so an overflow of `20 * len(v)` is not captured. It would need a string of more than 4.6e17 bytes.
- Floating-point values, such as the test's `Amount`, are modelled as opaque scalars that are only copied.
- Concurrent use of one masker while `SetMask` runs is not modelled. The code has no synchronisation.
- UTF-8 is not modelled: strings are byte sequences, and slicing may split a multi-byte character as the code does.
- The `Masker` Go interface type is not modelled separately; the class stands for `*masker`.
- The logger package (logger/*.go) is not modelled. It adapts zap and logrus and formats arguments with `fmt` and `encoding/json`.
- Redact.MaskValueSkeleton: stated for one-byte glyphs only, because a longer glyph changes string lengths. The rest of the skeleton is kept for any glyph, which `Redact.MaskValueShape` proves.
- Redact.MaskRecordSkeleton: stated for one-byte glyphs only, for the same reason. `Redact.MaskRecordShape` proves the struct's shape is kept for any glyph.
- Redact.MaskValueIdempotent: stated for one-byte glyphs only. With a longer glyph a second pass sees a longer string and shows a different prefix.

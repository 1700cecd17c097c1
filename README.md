# mirror — a Dafny model of the Go reflection helper `pkg/mirror`

`mirror` derives descriptive metadata for Go struct types by reflection and
caches it. For each struct field it records the kind, a few flags and the
field's parsed struct tags. It also binds that metadata to live values, so a
field can be read or lazily initialised through its descriptor.

This project models the package's core in Dafny and proves what the code
promises:

- **Tag parsing** (`helpers.go`, modules `TagParser` and `GoStrings`).
  - `ParseTags` is the byte-scanning lexer for the `key:"value"` convention documented on `reflect.StructTag`.
  - Errors are all-or-nothing.
  - Each value is split into a name and options: pieces are trimmed, an empty first piece is replaced by the field name, and empty pieces are dropped.
  - Repeated keys merge last-write-wins, and the merged entry keeps the first key's position.
  - `ParseTags` is a method with its loops, proved equal to the specification function `Parse`. Its properties are proved about `Parse`: well-formed entries, distinct keys, the merge law, and the round trip between printing tags and parsing them.
  - `strconv.Unquote`, `strings.Split` and `strings.TrimSpace` are given concrete definitions.
  - `indirect` removes one pointer level.
- **Tags** (`tag.go`, module `Tags`): the `Tag` record and its predicates.
- **Field descriptors and metadata** (`field.go`, `metadata.go`, module `Descriptors`).
  - `Metadata` and `Field` are mutually recursive immutable values: a field carries the metadata of its own type.
  - The constructors `NewTypeMetadata`, `getFields` and `NewField` are methods, proved to compute the specification functions `MetadataOf`, `FieldsOf` and `FieldOf`.
  - The lookups `FieldByName`, `FieldByIndex` and `Tag(key)` return the first match.
- **The metadata cache** (`mirror.go`, module `MetadataCache`).
  - `typCache` is the `entries` map of a `Cache` object.
  - `TypeMetadata` normalises a pointer key, returns the cached metadata on a hit, and derives and inserts it on a miss.
  - Its invariant is that every entry is the metadata derived for its key.
- **Live values** (`field_value.go`, `struct_value.go`, module `Accessors`, over the value model in `Reflect`).
  - `reflect.Type` is an inductive `Type` datatype.
  - A `reflect.Value` is a `Handle`: either a value held directly, or a path into a heap `Cell`, which stands for a Go variable.
  - `NewIfNil` writes through a handle in place.
  - `Get` checks validity before exportedness.
  - `NewStructValue` rejects everything except a non-nil pointer to a struct.

The functions `Reflect` and `ReflectType`, which `struct_value.go` and
`field_value.go` call, are not defined in `mirror.go`. They are modelled as
the cache entry point `TypeMetadata`.

`field.go:37` discards the tag parse error, so a field whose tag string is
malformed gets no tags. The model does the same: `FieldOf` and `NewField`
use the empty tag list on a syntax error, as `Descriptors.FieldTags` states.

## Model

| member | source | states |
|---|---|---|
| GoStrings.TrimSpace | pkg/mirror/helpers.go:108 | the result has no white space (Unicode `IsSpace`) at either end and is no longer than the input |
| GoStrings.TrimSpaceSlice | pkg/mirror/helpers.go:108 | the result is a slice of the input, and every character before or after that slice is white space: only leading and trailing white space is removed |
| GoStrings.TrimSpaceUnique | pkg/mirror/helpers.go:108 | any trimmed slice of the input with only white space around it is the result, so the result is exactly the input without its leading and trailing white space |
| GoStrings.TrimSpaceOfTrimmed | pkg/mirror/helpers.go:108 | trimming a string with no white space at either end leaves it unchanged |
| GoStrings.TrimLeft | pkg/mirror/helpers.go:108 | a suffix of the input that does not start with white space, and every dropped leading character is white space |
| GoStrings.TrimRight | pkg/mirror/helpers.go:108 | a prefix of the input that does not end with white space, and every dropped trailing character is white space |
| GoStrings.SpaceEnd | pkg/mirror/helpers.go:108 | the end of the run of white space starting at a position: every character from that position up to it is white space, and the character at it is not |
| GoStrings.SpaceStart | pkg/mirror/helpers.go:108 | the start of the run of white space ending at a position: every character from it up to that position is white space, and the character before it is not |
| GoStrings.SpaceBetweenShift | pkg/mirror/helpers.go:108 | white space in a suffix is white space in the whole string, at positions shifted by where the suffix starts |
| GoStrings.TrimLeftAt | pkg/mirror/helpers.go:108 | dropping exactly the white space before the first non-space character (or the whole string) is `TrimLeft` |
| GoStrings.TrimRightAt | pkg/mirror/helpers.go:108 | dropping exactly the white space after the last non-space character (or the whole string) is `TrimRight` |
| GoStrings.Split | pkg/mirror/helpers.go:107 | `strings.Split` gives at least one piece, and no piece contains the separator |
| GoStrings.JoinSplit | pkg/mirror/helpers.go:107 | joining the pieces of a split with the separator gives back the string |
| GoStrings.SplitJoin | pkg/mirror/helpers.go:107 | splitting separator-free pieces joined by the separator gives back the pieces |
| GoStrings.SplitPiece | pkg/mirror/helpers.go:107 | a separator-free piece followed by the separator splits off as exactly one piece |
| GoStrings.HexDigit | pkg/mirror/helpers.go:99 | a hexadecimal digit denotes a value below 16 |
| GoStrings.EscapedChar | pkg/mirror/helpers.go:99 | an escape sequence that `strconv.Unquote` accepts consumes between one character and the rest of the literal |
| GoStrings.EscapePlain | pkg/mirror/helpers.go:99 | a string without backslash, quote or newline needs no escaping |
| GoStrings.UnescapeEscapeChar | pkg/mirror/helpers.go:99 | unescaping an escaped character in front of an unescapable rest yields that character in front of the rest |
| GoStrings.UnescapeEscape | pkg/mirror/helpers.go:99 | unescaping the escaped form of any string gives back the string |
| GoStrings.Unescape | pkg/mirror/helpers.go:99 | the characters the inside of a double-quoted literal denotes, absent for a raw quote or newline or a malformed escape; `UnescapeEscape` states its round trip |
| GoStrings.Unquote | pkg/mirror/helpers.go:99 | `strconv.Unquote` of a double-quoted literal: absent unless the literal is at least two characters long and starts and ends with a quote, otherwise `Unescape` of its inside; `UnquoteQuote` states its round trip |
| GoStrings.UnquoteQuote | pkg/mirror/helpers.go:96-102 | `Unquote(Quote(s)) == s` for every string |
| Tags.Tag.Contains | pkg/mirror/tag.go:29-31 | holds exactly when the option is an element of the options |
| Tags.Tag.NameOrField | pkg/mirror/tag.go:35-40 | the name when it is neither empty nor `-`, the field name otherwise |
| Tags.Tag.IsIgnored | pkg/mirror/tag.go:43 | holds exactly when the tag name is `-`; `ZeroTagProperties` states that a zero tag is not ignored |
| Tags.Tag.IsZero | pkg/mirror/tag.go:46-48 | holds exactly when key and name are empty and there are no options; `ZeroIsMissing` ties it to the missing-key tag |
| Tags.ZeroIsMissing | pkg/mirror/tag.go:46-48 | a tag is zero exactly when it is the missing-key tag of its field, whatever the field name |
| Tags.ZeroTagProperties | pkg/mirror/tag.go:29-48 | a zero tag contains no option, is not ignored, and its `NameOrField` is the field |
| Reflect.FieldAt | pkg/mirror/metadata.go:78 | the i-th declared field's type is smaller than the struct type, so derivation terminates |
| Reflect.KindOf | pkg/mirror/struct_value.go:23-26 | the kind of a nil interface is `Invalid`, and no other value has it |
| Reflect.Zero | pkg/mirror/field_value.go:45 | the zero value fits its type, and it is nil for pointer, slice, map and interface types |
| Reflect.ValueAtSetAt | pkg/mirror/field_value.go:45 | writing a part of a value and reading it back gives what was written |
| Reflect.ValueAtAppend | pkg/mirror/struct_value.go:82 | following one more field index reaches that field of the struct part |
| Reflect.Handle.Elem | pkg/mirror/struct_value.go:60-62 | `Elem` of a pointer is present exactly when the pointer is not nil, and is then live and denotes the pointee |
| Reflect.Handle.Field | pkg/mirror/struct_value.go:82 | `Field(i)` of a live struct is live and denotes its i-th field |
| Reflect.Set | pkg/mirror/field_value.go:45 | the cell now holds the old value with the part at the handle's path replaced; the handle denotes the new value |
| TagParser.LeadingBlanks | pkg/mirror/helpers.go:50-54 | the count of leading spaces; only U+0020 counts |
| TagParser.KeyLength | pkg/mirror/helpers.go:64-69 | the longest prefix of bytes above space other than `:`, `"` and DEL |
| TagParser.QuoteEnd | pkg/mirror/helpers.go:85-91 | the scan stops at a quote or past the end |
| TagParser.Trims | pkg/mirror/helpers.go:108 | each piece is trimmed of white space, one result per piece |
| TagParser.Substituted | pkg/mirror/helpers.go:109-111 | only an empty first piece is replaced, by the field name |
| TagParser.NonEmpty | pkg/mirror/helpers.go:112-115 | no piece of the result is empty |
| TagParser.NonEmptyAppend | pkg/mirror/helpers.go:112-115 | dropping empty pieces goes piece by piece, keeping the order |
| TagParser.NonEmptyPrefix | pkg/mirror/helpers.go:112-115 | one more piece is kept after the earlier kept pieces exactly when it is non-empty |
| TagParser.Pieces | pkg/mirror/helpers.go:106-116 | reference definition of the option loop: nothing for an empty value, otherwise split, trimmed, first piece substituted, empty pieces dropped; `PiecesShape` states its shape and `ValuePieces` computes it |
| TagParser.TagOf | pkg/mirror/helpers.go:104-136 | reference definition of the tag built from a key and value: the first piece is the name, the rest the options; `TagOfShape` states its properties and `NewTag` computes it |
| TagParser.PiecesStep | pkg/mirror/helpers.go:107-115 | one more split piece extends the kept pieces by its trimmed (or substituted) form exactly when that is non-empty |
| TagParser.Lex | pkg/mirror/helpers.go:64-102 | a successful lex consumes at least one character |
| TagParser.NextEntry | pkg/mirror/helpers.go:64-136 | a successful read consumes at least one character, so the outer loop terminates |
| TagParser.Entries | pkg/mirror/helpers.go:48-151 | reference definition of the lexing phase: the entries in the order written, or the first syntax error; `EntriesWellFormed` and `EntriesSerialize` state its properties |
| TagParser.Keys | pkg/mirror/helpers.go:140 | the keys of the tags, in order |
| TagParser.Overwrite | pkg/mirror/helpers.go:139-144 | every entry with the new tag's key is replaced by it, and every other entry is kept |
| TagParser.Merge | pkg/mirror/helpers.go:138-150 | reference definition of one merge: overwrite the entries with the key, or append when there is none; `MergeTag` computes it |
| TagParser.MergeAll | pkg/mirror/helpers.go:138-150 | reference definition of merging all entries left to right; `MergeAllSpec` states last write wins with the first position kept |
| TagParser.Parse | pkg/mirror/helpers.go:37-157 | reference definition of `ParseTags`: the merged entries, or the syntax error; `ParseResult`, `ParseSerialize` and `ParseReparse` state its properties |
| TagParser.ValuePieces | pkg/mirror/helpers.go:106-116 | the split/trim/substitute/drop loop computes `Pieces` |
| TagParser.NewTag | pkg/mirror/helpers.go:104-136 | the loop and the switch on the number of pieces build `TagOf` |
| TagParser.MergeTag | pkg/mirror/helpers.go:138-150 | the overwrite loop and the append compute `Merge` |
| TagParser.SkipBlanks | pkg/mirror/helpers.go:50-53 | the loop stops at `LeadingBlanks` |
| TagParser.ScanKey | pkg/mirror/helpers.go:64-69 | the loop stops at `KeyLength` |
| TagParser.ScanQuote | pkg/mirror/helpers.go:85-91 | the loop stops at `QuoteEnd` |
| TagParser.ReadEntry | pkg/mirror/helpers.go:64-136 | one pass of the outer loop computes `NextEntry`, including each syntax error |
| TagParser.EntriesStep | pkg/mirror/helpers.go:48-151 | reading one entry advances `Entries` by that tag |
| TagParser.MergeAllSnoc | pkg/mirror/helpers.go:138-150 | merging one more entry is one `Merge` step |
| TagParser.ParseTags | pkg/mirror/helpers.go:37-157 | `ParseTags` computes `Parse`; on a syntax error the tag list is empty |
| TagParser.ParseBlank | pkg/mirror/helpers.go:38-41 | an empty tag string, or one of only spaces, yields no tags and no error |
| TagParser.TrimmedPieces | pkg/mirror/helpers.go:107-108 | every trimmed piece of a value is empty or an option (non-empty, trimmed, free of commas) |
| TagParser.TrimSpaceKeepsOut | pkg/mirror/helpers.go:107-108 | trimming a piece free of commas leaves it free of commas |
| TagParser.NonEmptyOptions | pkg/mirror/helpers.go:112-115 | dropping the empty pieces of pieces that are empty or options leaves only options |
| TagParser.NonEmptyOfNonEmpty | pkg/mirror/helpers.go:112-115 | dropping empty pieces from non-empty pieces changes nothing |
| TagParser.PiecesShape | pkg/mirror/helpers.go:106-116 | the pieces are the first trimmed piece (or the field name in place of an empty one, unless that is empty too), followed by the non-empty trimmed later pieces |
| TagParser.TagOfShape | pkg/mirror/helpers.go:104-136 | the tag carries the field name and key and its options are options; an empty value gives an empty name and no options; a non-empty first piece is the name; an empty first piece with a non-empty field name gives the field name |
| TagParser.NameEmptyIffValueEmpty | pkg/mirror/helpers.go:106-111 | with a non-empty field name, the name is empty exactly when the unquoted value is |
| TagParser.LexKey | pkg/mirror/helpers.go:64-82 | an accepted key is non-empty, made of bytes above space other than `:`, `"` and DEL, and directly followed by `:"` |
| TagParser.NextEntryShape | pkg/mirror/helpers.go:64-136 | every tag read is well formed for the field, with the lexed key |
| TagParser.EntriesWellFormed | pkg/mirror/helpers.go:48-151 | every entry read from a tag string is well formed |
| TagParser.Dedup | pkg/mirror/helpers.go:138-150 | the keys in order of first occurrence: the same keys, each once |
| TagParser.Last | pkg/mirror/helpers.go:138-150 | the last entry written with a key is one of the entries and has that key |
| TagParser.MergeAllSpec | pkg/mirror/helpers.go:138-150 | last write wins and the first position stays: the merged keys are the keys in order of first occurrence, each with its last entry |
| TagParser.MergeKeysStep | pkg/mirror/helpers.go:138-150 | merging one more entry keeps the merged keys equal to the keys in order of first occurrence |
| TagParser.MergeLastStep | pkg/mirror/helpers.go:138-150 | merging one more entry keeps every merged entry the last one written with its key |
| TagParser.MergeAllDistinct | pkg/mirror/helpers.go:138-150 | the merged list has pairwise distinct keys |
| TagParser.DistinctKeysInit | pkg/mirror/helpers.go:138-150 | in a list with distinct keys, the last key does not occur before it and the earlier keys stay distinct |
| TagParser.MergeAllOfDistinct | pkg/mirror/helpers.go:138-150 | entries with distinct keys merge to themselves |
| TagParser.MergeAllWellFormed | pkg/mirror/helpers.go:138-150 | merging keeps entries well formed |
| TagParser.ParseResult | pkg/mirror/helpers.go:37-157 | a successful parse gives well-formed tags with `field == fieldName` and pairwise distinct keys |
| TagParser.QuoteEndEscape | pkg/mirror/helpers.go:85-91 | the closing-quote scan skips exactly over an escaped string |
| TagParser.QuoteEndStep | pkg/mirror/helpers.go:86-90 | the closing-quote scan steps over one escaped character exactly |
| TagParser.PiecesJoin | pkg/mirror/helpers.go:106-116 | options joined by commas split back into the same pieces |
| TagParser.KeyLengthOf | pkg/mirror/helpers.go:64-69 | a key of key characters followed by `:` is scanned exactly to the colon |
| TagParser.LexWhen | pkg/mirror/helpers.go:64-102 | a key, `:"`, a closed quoted part that unquotes to `v`, and a rest lex into key, `v` and rest |
| TagParser.KeyPart | pkg/mirror/helpers.go:64-82 | a key of key characters followed by `:` and a quote is scanned to the colon and split off whole |
| TagParser.QuotedPart | pkg/mirror/helpers.go:85-102 | the scan over a quoted string followed by a rest stops at its closing quote, and the quoted part unquotes to the string |
| TagParser.LexQuoted | pkg/mirror/helpers.go:64-102 | `key:` followed by a quoted string and a rest lexes into the key, the string and the rest |
| TagParser.LexFormat | pkg/mirror/helpers.go:64-102 | the printed form `key:"name,opts"` lexes into its key and its unquoted value |
| TagParser.NextEntryFormat | pkg/mirror/helpers.go:64-136 | the printed form of a canonical tag reads back as that tag |
| TagParser.EntriesSpace | pkg/mirror/helpers.go:50-54 | a leading space changes nothing |
| TagParser.EntriesCons | pkg/mirror/helpers.go:48-151 | a string that starts with an entry reads that entry first |
| TagParser.SerializeStep | pkg/mirror/helpers.go:48-151 | the printed form of tags that start with a canonical tag reads that tag first |
| TagParser.EntriesSerialize | pkg/mirror/helpers.go:48-151 | the printed form of canonical tags reads back as those tags, in order |
| TagParser.ParseSerialize | pkg/mirror/helpers.go:37-157 | printing canonical tags with distinct keys and parsing them again gives them back |
| TagParser.ParseReparse | pkg/mirror/helpers.go:37-157 | printing the result of a parse and parsing that again gives the same result |
| TagParser.ExampleMissingColon | pkg/mirror/helpers.go:74-76 | a key without a colon is a syntax error |
| TagParser.PiecesEmptyFirst | pkg/mirror/helpers.go:109-111 | a value `,opt1,opt2` stands for the field name followed by the options |
| TagParser.ExampleNameAndOption | pkg/mirror/helpers.go:118-128 | the value `f1,omitempty` gives name `f1` and option `omitempty` |
| TagParser.ExampleFieldNameSubstituted | pkg/mirror/helpers.go:109-111 | the value `,omitempty` on field `F1` gives name `F1` |
| TagParser.Indirect | pkg/mirror/helpers.go:161-166 | a pointer type gives its element type; any other type is unchanged |
| Descriptors.Metadata.GetFields | pkg/mirror/metadata.go:71-80 | the loop fills in `FieldsOf`: one descriptor per declared field, in order, and none for an empty struct |
| Descriptors.Metadata.Names | pkg/mirror/metadata.go:54 | the names of the field descriptors, position by position |
| Descriptors.Metadata.FieldNamed | pkg/mirror/metadata.go:52-59 | absent exactly when no field has the name; otherwise the first field with that name, unexported ones included |
| Descriptors.Metadata.FieldByName | pkg/mirror/metadata.go:52-59 | the loop over the fields computes `FieldNamed` |
| Descriptors.FirstIndex | pkg/mirror/metadata.go:53-58 | absent exactly when the name does not occur; otherwise the position of its first occurrence |
| Descriptors.FirstIndexAt | pkg/mirror/metadata.go:53-58 | a position holding the name with no earlier occurrence is the first index |
| Descriptors.Metadata.FieldByIndex | pkg/mirror/metadata.go:63-68 | present exactly when the index is in range, and then the field at that index |
| Descriptors.Metadata.IsStruct | pkg/mirror/metadata.go:44-46 | holds when the stored type, with one more pointer level removed, is a struct |
| Descriptors.Field.Tag | pkg/mirror/field.go:61-68 | the first tag with the key, or else the zero tag of the field |
| Descriptors.Field.IsValid | pkg/mirror/field.go:71 | holds exactly for a field that is neither an interface nor embedded; `FieldOfShape` ties it to the declared field |
| Descriptors.Field.IsExported | pkg/mirror/field.go:75 | the exportedness of the declared field |
| Descriptors.Field.IsSliceOfPtr | pkg/mirror/field.go:79 | the slice-of-pointers flag; `FieldOfShape` states it holds exactly for a slice or array of pointers |
| Descriptors.Field.IndirectType | pkg/mirror/field.go:83-88 | the element type for a pointer field, the field type otherwise; `FieldOfShape` states it is `indirect` of the type |
| Descriptors.Field.IsSlice | pkg/mirror/field.go:91 | holds exactly when the field's kind is slice |
| Descriptors.Field.IsArray | pkg/mirror/field.go:94 | holds exactly when the field's kind is array |
| Descriptors.Field.IsSliceOrArray | pkg/mirror/field.go:98 | the slice-or-array flag; `FieldOfShape` states it holds exactly for slices and arrays |
| Descriptors.Field.IsMap | pkg/mirror/field.go:101 | holds exactly when the field's kind is map |
| Descriptors.Field.IsInterface | pkg/mirror/field.go:104 | holds exactly when the field's kind is interface |
| Descriptors.NewTypeMetadata | pkg/mirror/metadata.go:25-35 | computes `MetadataOf` |
| Descriptors.MetadataOf | pkg/mirror/metadata.go:25-35 | reference definition of derived metadata; `MetadataOfShape` and `PointerNormalised` state its properties and `NewTypeMetadata` computes it |
| Descriptors.FieldsOf | pkg/mirror/metadata.go:71-80 | reference definition of the field list: one descriptor per declared field, in order; `GetFields` computes it |
| Descriptors.NewMetadata | pkg/mirror/metadata.go:18-20 | the metadata of the dynamic type of a non-nil interface value |
| Descriptors.NewField | pkg/mirror/field.go:25-42 | computes `FieldOf`, and drops a tag syntax error |
| Descriptors.FieldOf | pkg/mirror/field.go:25-42 | reference definition of a field descriptor; `FieldOfShape` and `FieldTags` state its properties and `NewField` computes it |
| Descriptors.MetadataOfShape | pkg/mirror/metadata.go:25-35 | the stored type has one pointer level removed and the kind is that type's; a non-struct has no fields; a struct's i-th descriptor is its i-th declared field, with name, type and index path `[i]` |
| Descriptors.EmptyStructHasNoFields | pkg/mirror/metadata.go:72-75 | a struct with no fields gets no field descriptors |
| Descriptors.PointerNormalised | pkg/mirror/metadata.go:26 | `T` and `*T` have the same metadata |
| Descriptors.PointerToStructPointer | pkg/mirror/metadata.go:44-46 | `**S` is outside what derivation handles, because `IsStruct` removes a second pointer level |
| Descriptors.FieldOfShape | pkg/mirror/field.go:25-104 | name and index path are the declared ones; the field carries its type's metadata; slice-or-array holds exactly for slices and arrays; slice-of-pointers exactly when the element is a pointer; valid exactly when neither an interface nor embedded; `IndirectType` is `indirect` of the type |
| Descriptors.FieldTags | pkg/mirror/field.go:37 | a malformed tag string leaves no tags; otherwise the tags are the parse result, well formed and with distinct keys |
| MetadataCache.Cache.constructor | pkg/mirror/mirror.go:29 | the cache starts empty and valid |
| MetadataCache.Cache.TypeMetadata | pkg/mirror/mirror.go:41-58 | returns the metadata of the pointer-normalised type; a hit returns the cached entry and leaves the map unchanged; a miss inserts under the normalised key only; the invariant is kept |
| MetadataCache.Cache.MetadataFor | pkg/mirror/mirror.go:33-35 | `TypeMetadata` of the dynamic type of a non-nil interface value |
| MetadataCache.SameEntryForPointer | pkg/mirror/mirror.go:42-44 | `T` and `*T` resolve to the same entry and the same metadata |
| MetadataCache.RepeatedRequest | pkg/mirror/mirror.go:46-57 | two requests for the same type return the same metadata, the second leaves the cache as the first left it, and the cache stays valid |
| Accessors.AccessError.Message | pkg/mirror/field_value.go:74 | the unexported-field error reads `unexported field: ` followed by the name |
| Accessors.DeclNames | pkg/mirror/struct_value.go:64 | the declared field names of a struct type, in order |
| Accessors.DeclIndex | pkg/mirror/struct_value.go:64 | `reflect.Value.FieldByName` on a struct finds the first declared field with that name, and nothing when there is none |
| Accessors.FieldValue.NewIfNil | pkg/mirror/field_value.go:40-66 | a nil pointer gets a fresh cell holding the element's zero value; a nil map becomes an empty map; a nil slice becomes an empty slice; anything else is unchanged; returns the receiver |
| Accessors.FieldValue.Get | pkg/mirror/field_value.go:69-77 | succeeds exactly for a valid exported field, returning the bound value; an invalid field fails with `ErrInvField`, checked first; a valid unexported field fails with `ErrUnexportedField` naming the field; the value is read, and must be live, only on success |
| Accessors.FieldValue.AsStruct | pkg/mirror/field_value.go:25-31 | the cached metadata of the field's type, with the field's own value handle and kind |
| Accessors.StructValue.IsPtr | pkg/mirror/struct_value.go:42 | holds exactly when the struct is held through a pointer, that is when the kind is `Ptr` |
| Accessors.StructValue.Target | pkg/mirror/struct_value.go:60-62 | the struct a struct value holds is absent exactly for a nil pointer, and is otherwise live and denotes the pointee for a pointer and the value itself otherwise |
| Accessors.StructValue.NumField | pkg/mirror/struct_value.go:56 | the number of declared fields of the struct type |
| Accessors.StructValue.FieldByName | pkg/mirror/struct_value.go:59-70 | absent exactly when no field has the name; otherwise the first field with that name, paired with that field's live value |
| Accessors.StructValue.FieldByIndex | pkg/mirror/struct_value.go:73-87 | absent exactly when the index is at least `NumField`, checked first, so also on a nil struct pointer; otherwise metadata field `i` paired with live field `i` |
| Accessors.StructValue.NewIfNil | pkg/mirror/struct_value.go:90-96 | a nil struct pointer gets a fresh cell holding the struct's zero value; anything else is unchanged; returns the receiver |
| Accessors.IsValid | pkg/mirror/struct_value.go:45-50 | a struct value exists and its handle is live |
| Accessors.NewStructValue | pkg/mirror/struct_value.go:22-39 | a struct value exists exactly for a non-nil pointer to a struct; it holds the pointer with the struct's cached metadata |
| Accessors.NewStructValueReady | pkg/mirror/struct_value.go:22-39 | such a struct value, over a pointee of the struct's shape, is ready for field lookups |

## Left out

- Locking. The `sync.RWMutex` around `typCache` is not modelled. The cache is one sequential object shared by its callers.
- Go's reflection internals.
  - Types are a small inductive datatype: basic kinds, pointers, slices, arrays, maps and structs.
  - Package paths, type names beyond a struct's name, methods and function values are not modelled.
  - Cyclic (self-referential) struct types cannot be expressed. On those, the eager derivation in `NewField` does not terminate.
- Settability. `reflect.Value.Set` needs an addressable value. The model asks for an addressable handle (`At`) wherever the code would set a value.
- Promoted fields. `reflect.Value.FieldByName` also finds fields promoted from embedded structs. `Accessors.DeclIndex` looks only at top-level declared fields.
- `any` boxing. `Get` returns the modelled `Value` instead of an `interface{}`.
- Map size hints. `MakeMapWithSize(mt, 1)` is modelled as an empty map. Capacities are not modelled.
- Nil versus empty.
  - A nil slice and an empty slice are the same value in the model: a parse with no tags, options that are absent, and a struct with no fields are all `[]`.
  - `MapV(None)` and `SliceV(None)` do keep a nil map or slice apart from an empty one, for `NewIfNil`.
- Object identity. `Metadata` and `Field` are immutable values, so "the same metadata object" is equality of values.
- Byte strings.
  - Go strings are byte strings; the model treats them as strings of characters.
  - The lexer's conditions pick out the same bytes either way, because every byte of a multi-byte UTF-8 sequence is at least 0x80.
  - `\x` and octal escapes in `Unquote` produce the character with that code, not a raw byte.
- GoStrings.Quote: escapes only `\`, `"` and newline, not every non-printable character that `strconv.Quote` escapes. It is used only to state the round trip.
- `ParseTags` examples. Concrete full-string examples are stated at the level of one entry (`TagOf`), plus a syntax-error example. Through the whole parse, the proofs are general lemmas.
- `**S`. `NewTypeMetadata` on a type whose one-level indirection is still a pointer to a struct, directly or in any field, is excluded by the precondition `Derivable`, because the code panics there. A nil type is not representable.
- Descriptors.Field.IndirectType: requires a Ptr-kinded field to have a pointer type, as every field built by `NewField` does.
- `Reflect` and `ReflectType` are not defined in `mirror.go`. They are modelled as `TypeMetadata`.
- `NewFieldValue`, `Field`, `Value`, `Key`, `Name`, `Metadata`, `Fields`, `Type`, `Kind`, `Index`, `StructField`, `TypeMetadata` and `IsAnonymous` are plain accessors. They are the datatypes' constructors and destructors.
- Accessors.StructValue.FieldByName: requires a ready struct value, meaning metadata of a struct type bound to a live struct of that shape. Over a nil struct pointer the code panics there, because `reflect.Value.FieldByName` is called on the zero value. `NewStructValue` produces a ready value for a well-typed pointee, as `NewStructValueReady` states.
- Accessors.StructValue.FieldByIndex: requires a ready struct value only for an index in range; an index at least `NumField` gives no field even over a nil struct pointer, as `struct_value.go:78-80` does. In range over a nil pointer the code panics on the zero value.
- Descriptors.Metadata.FieldByIndex: the index is a `nat`; a negative index panics in the code (`md.fields[idx]` at `metadata.go:67`) and that path is not modelled.
- Accessors.StructValue.FieldByIndex: the index is a `nat`; a negative index panics in the code (`val.Field(idx)` at `struct_value.go:82`) and that path is not modelled.

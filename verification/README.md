# Entity struct naming in sqlc-gen-go

This project models the part of the sqlc Go code generator that names the
structs it emits for database tables and columns (`internal/struct.go`):

- **`StructName`** turns a raw identifier such as `user_id` into an exported
  Go identifier such as `UserID`. It does this in five steps:
  1. A non-empty entry in the rename map wins outright.
  2. Otherwise every character that is neither a letter nor a digit becomes `_`.
  3. The text is split on `_`.
  4. Each segment is cased: an initialism is upper-cased whole, and any other
     segment is title-cased.
  5. A leading digit gets a `_` in front.
- **`Struct.Type`** gives the struct's type name, qualified by its package
  when it has one.

The project has two files:

- `text.dfy` (module `Text`) holds ASCII stand-ins for the Go library calls
  the generator uses. These are `unicode.IsLetter`, `unicode.IsDigit`,
  `strings.ToUpper`, `strings.Split` and the English title caser of
  `golang.org/x/text/cases`. The file also proves their properties, such as
  split/join round trips and case-preservation lemmas.
- `structs.dfy` (module `Structs`) holds the `Struct` record (`Struct`
  datatype: name, package, fields and comment, as at
  `internal/struct.go:14-20`), `Struct.Type`,
  and `StructName` written as a method with the generator's loop over the
  segments. It is proved equal to the specification function `Normalized`.
  The lemmas about `Normalized` state what the naming guarantees.

Behaviour worth noting:

- **Initialism lookup.** A segment is looked up in the initialism map
  exactly as written. `InitialismLookupIsExact` shows `USER_ID` naming
  `UserId` when the only initialism is `id`.
- **Empty segments.** Empty segments, from leading, trailing or repeated
  separators, are cased to the empty string and so add nothing.
- **No letters or digits.** An identifier with no letters or digits names
  the empty string.
- **Empty rename.** An empty rename value names exactly as a missing one.

## Model

| member | source | states |
|---|---|---|
| Structs.Struct.Type | internal/struct.go:22-27 | the result is the name alone when there is no package. Otherwise it is the package, then '.', then the name (its length, prefix and suffix are stated) |
| Structs.TypeRoundTrip | internal/struct.go:22-27 | a qualified type name reads back as exactly its package and name, splitting at the last '.', when the name holds no '.' |
| Structs.NormalizedTypeRoundTrip | internal/struct.go:22-60 | a name produced without a rename never holds '.', so the type name built from it always reads back as its package and name |
| Structs.EmptyRenameIgnored | internal/struct.go:30-32 | a name mapped to the empty rename names exactly as if it had no rename entry |
| Structs.RenameExample | internal/struct.go:30-32 | a rename is returned verbatim, bypassing initialisms and the leading-digit rule ("x" renamed to "1abc" gives "1abc") |
| Structs.StructName | internal/struct.go:29-60 | the loop over the segments, followed by the digit fix-up, returns exactly `Normalized` (the rename when it is non-empty; otherwise the cased segments, with '_' in front of a leading digit). A non-empty rename is returned as is. The shape of the name is stated in NormalizedShape |
| Structs.Sanitize | internal/struct.go:35-43 | the character mapping of the identifier keeps its length; SanitizeSpec states each position |
| Text.IsLetter | internal/struct.go:36-38 | ASCII letters; a letter is never a digit and never '_' |
| Text.IsDigit | internal/struct.go:39-41 | ASCII digits; a digit is never a letter and never '_' |
| Structs.SanitizeSpec | internal/struct.go:35-43 | the character mapping keeps every letter and digit at its position and puts '_' at every other position |
| Text.Split | internal/struct.go:45 | strings.Split on one separator character: always at least one segment (the empty text gives one empty segment); JoinSplit and SplitJoin state it exactly |
| Text.SplitPartsSepFree | internal/struct.go:45 | no segment produced by the split contains the separator |
| Text.JoinSplit | internal/struct.go:45 | joining the segments of a split with the separator gives back the original text |
| Text.SplitJoin | internal/struct.go:45 | splitting a join of separator-free segments gives back those segments |
| Text.SplitAppend | internal/struct.go:45 | splitting `x + sep + y` gives the segments of x followed by the segments of y |
| Text.SplitConcat | internal/struct.go:45 | for text made only of letters, digits and the separator, the segments laid end to end are exactly its letters and digits |
| Text.ToUpper | internal/struct.go:47 | strings.ToUpper keeps the length; ToUpperSpec states each position |
| Text.ToUpperSpec | internal/struct.go:47 | upper-casing keeps every character up to case and leaves no lower-case letter |
| Text.Title | internal/struct.go:48-49 | the English title caser (built at line 33) on one segment keeps the length; TitleSpec states each position |
| Text.TitleSpec | internal/struct.go:48-49 | title-casing keeps every character up to case, and a letter comes out upper-case exactly when no letter precedes it |
| Text.TitleOfLetters | internal/struct.go:48-49 | a non-empty all-letter word is title-cased to an upper-case first letter followed by lower-case letters |
| Structs.CaseSegment | internal/struct.go:46-50 | one segment cased as the loop body does (an initialism by strings.ToUpper, any other by the title caser) keeps its length; CaseSegmentSpec states its content |
| Structs.CaseSegmentSpec | internal/struct.go:46-50 | a cased segment equals the segment up to case. An initialism has no lower-case letter left. Any other all-letter segment starts upper-case and continues lower-case |
| Structs.CaseAll | internal/struct.go:45-51 | the segments cased one by one and concatenated, as `out` accumulates them, are as long as the segments concatenated |
| Structs.CaseAllSameUpToCase | internal/struct.go:45-51 | the concatenated cased segments equal the concatenated segments up to case |
| Structs.BodyLettersAndDigits | internal/struct.go:35-51 | before the digit rule, the name is made only of letters and digits, and they are the input's letters and digits, in order, up to case |
| Structs.Normalized | internal/struct.go:29-60 | the name StructName returns. The rename map is read through RenameOf as Go reads a map, giving "" for a missing key, and a non-empty rename is returned as is. Otherwise the result is the cased segments, and after the fix-up it never starts with a digit, because the '_' put in front of a leading digit is not a digit (the `unicode.IsDigit` test at lines 55-56) |
| Structs.NormalizedShape | internal/struct.go:35-59 | without a rename the name holds at most one '_', at its head. It never starts with a digit, and its letters and digits are the input's up to case. The '_' is there exactly when the input's first letter-or-digit is a digit, and the length is the input's count of letters and digits plus that '_' |
| Structs.NoLettersOrDigitsGivesEmpty | internal/struct.go:35-59 | an identifier with no letters or digits (such as "" or "--") names "" |
| Structs.BodySeparator | internal/struct.go:35-51 | a non-alphanumeric character cuts the identifier into two halves, which are named independently and concatenated |
| Structs.AnySeparatorNamesAlike | internal/struct.go:35-51 | any non-alphanumeric separator names the same as '_' ("a-b" like "a_b") |
| Structs.RepeatedSeparatorNamesAlike | internal/struct.go:35-51 | two separators in a row name like one ("a__b" like "a_b") |
| Structs.LeadingSeparatorNamesAlike | internal/struct.go:35-51 | a leading separator adds nothing ("_ab" like "ab") |
| Structs.TrailingSeparatorNamesAlike | internal/struct.go:35-51 | a trailing separator adds nothing ("ab_" like "ab") |
| Structs.SeparatorVariantsNameAlike | internal/struct.go:35-59 | with no renames, "a-b", "a__b" and "_a_b_" give the same struct name as "a_b", for any non-alphanumeric characters |
| Structs.BodyOfWord | internal/struct.go:45-51 | a single word of letters and digits is cased as one segment |
| Structs.BodyOfWords | internal/struct.go:45-51 | words of letters and digits joined by '_' name as their casings concatenated |
| Structs.UserIdExample | internal/struct.go:46-49 | with the initialism "id", "user_id" names "UserID" |
| Structs.CreatedAtExample | internal/struct.go:48-49 | with no initialisms, "created_at" names "CreatedAt" |
| Structs.LeadingDigitExample | internal/struct.go:53-59 | "1_user" names "_1User": exactly one '_' is put in front of a leading digit |
| Structs.InitialismLookupIsExact | internal/struct.go:46 | the initialism lookup matches the segment exactly as written: with the initialism "id", "USER_ID" names "UserId" |

## Left out

- Unicode: letters and digits are ASCII only (`a`-`z`, `A`-`Z`, `0`-`9`), so
  any other letter or digit is treated as a separator. Go strings are
  modelled as sequences of characters rather than UTF-8 bytes.
- Text.Title: the language rules of the English title caser are not
  modelled. A segment mixing digits and letters is cased by copying
  everything before the first letter, upper-casing that letter and
  lower-casing every later letter. The digits do not start a new word, as in
  the x/text caser. TitleSpec covers every segment under this reading; only
  TitleOfLetters and the third ensures of CaseSegmentSpec are stated for
  letter-only segments.
- `Struct.Table` (a `*plugin.Identifier` back-reference) is not modelled.
  `Field` is not part of this model, so `Struct` is generic in its field type.
- A nil options pointer is not modelled.
- Fields of the options other than the rename map and the initialism set are
  not modelled. The initialism map is a set of its keys.
- The example programs' database tests (`db_test.go`) are not
  modelled. They need live databases and generated code that is not part of
  this model.

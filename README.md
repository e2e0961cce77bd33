# HTTP header field names and values

A model of `src/header.rs`. The file defines the two building blocks of an HTTP header field:

- `HeaderFieldName` holds the bytes of a field name.
- `HeaderFieldValue` holds the bytes of a field value, tagged visible or secret by `ValueType`.

Both types are built through a 256-entry character map. The map sends every byte that may appear in a name (or value) to itself and every other byte to the null byte. There are two constructors:

- `from_bytes` rejects any input that contains a byte the map sends to null.
- `from_bytes_unchecked` (and `from_static`, which calls it) keeps the nulls as placeholders.

`clean` removes the placeholders. A secret value renders as `<REDACTED>` in debug output.

Files and modules:

- `bytes.dfy` (`Bytes`):
  - the `byte` type;
  - null stripping (`StripNulls`), the specification of both `clean` loops;
  - `RemoveNulls`, the loop itself, which drains the input from the front as `VecDeque::pop_front` does.
- `character_maps.dfy` (`CharacterMaps`):
  - the two tables, entry for entry, written one line of the original literal per sequence;
  - the alphabets the tables encode: letters, digits, `-` and `_` for names; horizontal tab and the printable ASCII range 0x20–0x7E for values;
  - the byte-by-byte normalization (`Normalized`) that the unchecked constructors perform.
- `header_name.dfy` (`HeaderName`): `HeaderFieldName` and its operations.
- `header_value.dfy` (`HeaderValue`): `ValueType`, `HeaderFieldValue` and their operations.
- `wrappers.dfy` (`Wrappers`): the `Result` type returned by `from_bytes`.

Validity has two levels:

- `Valid()`: every byte is in the alphabet.
- `Normal()`: every byte is in the alphabet or is a null placeholder.

Six documentation comments promise validity:

- on the types, a name or value "will always contain characters valid" for it (src/header.rs:43, 182);
- on `as_bytes`, the returned bytes "will always be valid characters" (src/header.rs:121, 242);
- on `as_utf8_str`, the returned string "will always be valid" (src/header.rs:128, 291).

The code does not guarantee any of them. `from_bytes_unchecked` stores nulls by design. So the model proves the claim in qualified form:

- every constructor yields a `Normal` value;
- `from_bytes` yields a `Valid` one;
- `clean` turns every `Normal` value into a `Valid` one and leaves a `Valid` one unchanged.

Because both alphabets are 7-bit ASCII, every `Normal` value is ASCII. That is why the unchecked UTF-8 view `as_utf8_str` is sound for every value the constructors build.

The documentation comment at src/header.rs:183 says that a secret's contents will not be visible in debug output. The model proves this as "the rendering of a secret does not depend on its bytes" (`SecretRenderingIgnoresContent`). The stronger reading, that the rendering never contains the content as a substring, is false: a secret whose bytes are `RED` renders as `HeaderFieldValue(<REDACTED>)`, which contains `RED` (`RedactionMarkerMayContainContent`).

The unit tests at src/header.rs:301-335 appear as the methods `NameFromValidCharsUnchecked`, `NameFromInvalidCharsUnchecked`, `SecretValueRedactedDebugOutput` and `VisibleValueDebugOutput`. Each one asserts the test's expected output. `NameFromBytesEdges` and `ValueFromBytesEdges` add the empty input and a rejected byte.

## Model

| member | source | states |
|---|---|---|
| CharacterMaps.NameCharacterMapEncodesAlphabet | src/header.rs:7-19 | The name table has 256 entries; entry `b` is `b` when `b` is an ASCII letter, digit, `-` or `_`, and 0 otherwise. |
| CharacterMaps.ValueCharacterMapEncodesAlphabet | src/header.rs:21-34 | The value table has 256 entries; entry `b` is `b` when `b` is a horizontal tab or in 0x20–0x7E, and 0 otherwise. |
| CharacterMaps.ClassifyName | src/header.rs:79 | Looking a byte up in the name table keeps a name byte and gives null for any other byte. |
| CharacterMaps.ClassifyValue | src/header.rs:219 | Looking a byte up in the value table keeps a value byte and gives null for any other byte. |
| CharacterMaps.Accepted | src/header.rs:92-112 | The bytes an unchecked construction followed by `clean` keeps: all in the alphabet, each accepted byte as often as in the input, no other byte. |
| CharacterMaps.AlphabetsAreAsciiWithoutNull | src/header.rs:7-34 | Neither table keeps the null byte or any byte at or above 0x80. |
| CharacterMaps.NameCharsAreValueChars | src/header.rs:7-34 | Every byte the name table keeps, the value table keeps too. |
| CharacterMaps.NameCharsAreStrictlyFewerThanTchars | src/header.rs:7-19 | Every name byte is an RFC 9110 token character (section 5.6.2); `!`, `+` and `.` are token characters that the name table rejects. |
| CharacterMaps.NormalizedAt | src/header.rs:92-98 | Normalizing keeps the length and puts null at exactly the positions of rejected bytes; other positions keep their byte. |
| CharacterMaps.NormalizedIsAcceptedOrNull | src/header.rs:92-98 | A normalized input holds only alphabet bytes and nulls, all ASCII. |
| CharacterMaps.NormalizedHasNoNullsIff | src/header.rs:76-98 | The unchecked result has no placeholder exactly when the checked constructor would succeed, and then it equals the input. |
| CharacterMaps.StripNullsLeavesAccepted | src/header.rs:103-112 | Stripping the nulls from alphabet bytes and placeholders leaves only alphabet bytes. |
| CharacterMaps.StripNullsIsAcceptedWhenNormal | src/header.rs:103-112 | On alphabet bytes and placeholders, which is all a constructor stores, removing the nulls is the same as keeping the alphabet bytes, in order. |
| CharacterMaps.AsciiWhenNormal | src/header.rs:126-131 | Alphabet bytes and placeholders are ASCII, so the unchecked UTF-8 readings of names and values are sound. |
| CharacterMaps.StripNormalizedIsAccepted | src/header.rs:92-112 | Unchecked construction followed by `clean` keeps exactly the accepted bytes of the input, in order. |
| Bytes.StripNulls | src/header.rs:103-112 | The result of removing the nulls is no longer than the input and contains no null. |
| Bytes.StripNullsCounts | src/header.rs:103-112 | Removing nulls keeps every non-null byte as many times as it occurs and drops every null. |
| Bytes.StripNullsMembers | src/header.rs:103-112 | A byte survives exactly when it is a non-null byte of the input. |
| Bytes.StripNullsIdentity | src/header.rs:103-112 | Removing nulls from an input without nulls changes nothing. |
| Bytes.StripNullsIdempotent | src/header.rs:103-112 | Removing nulls twice is the same as removing them once. |
| Bytes.RemoveNulls | src/header.rs:104-110 | The pop-front loop outputs exactly the input with its nulls removed. |
| HeaderName.HeaderFieldName.FromBytes | src/header.rs:76-86 | Succeeds if and only if every byte is a name byte; on success the name is the input unchanged and valid. |
| HeaderName.HeaderFieldName.FromBytesUnchecked | src/header.rs:92-98 | Never fails; the name is the input with every non-name byte replaced by null, so it is normal. |
| HeaderName.HeaderFieldName.FromStatic | src/header.rs:68-70 | Same result as the unchecked constructor on the string's bytes. |
| HeaderName.HeaderFieldName.Clean | src/header.rs:103-112 | The new name is the old bytes without nulls; a normal name becomes valid; a valid name is returned unchanged. |
| HeaderName.HeaderFieldName.AsBytes | src/header.rs:119-124 | The stored bytes of the name; the bytes of a valid name are all name bytes; the bytes of a normal name are ASCII. |
| HeaderName.HeaderFieldName.AsUtf8Str | src/header.rs:126-131 | One character per byte; for a normal name each character is the ASCII character of its byte. |
| HeaderValue.ValueType.IntoSecret | src/header.rs:162-166 | Gives the secret variant holding the same bytes. |
| HeaderValue.ValueType.IntoVisible | src/header.rs:168-172 | Gives the visible variant holding the same bytes. |
| HeaderValue.ValueType.Debug | src/header.rs:139-147 | A secret renders as `<REDACTED>`; a visible one renders one character per byte, each with that byte as its code point. |
| HeaderValue.HeaderFieldValue.FromBytes | src/header.rs:216-226 | Succeeds if and only if every byte is a value byte; on success the value is the input unchanged, valid and visible. |
| HeaderValue.HeaderFieldValue.FromBytesUnchecked | src/header.rs:232-238 | Never fails; the value is the input with every non-value byte replaced by null; it is normal and visible. |
| HeaderValue.HeaderFieldValue.FromStatic | src/header.rs:208-210 | Same result as the unchecked constructor on the string's bytes. |
| HeaderValue.HeaderFieldValue.AsBytes | src/header.rs:243-245 | The stored bytes whatever the tag; all value bytes when valid; ASCII when normal. |
| HeaderValue.HeaderFieldValue.IsSecret | src/header.rs:278-280 | A value that reports itself secret is redacted by the inner rendering. |
| HeaderValue.HeaderFieldValue.Clean | src/header.rs:250-265 | The new bytes are the old bytes without nulls; the secrecy tag is kept; a normal value becomes valid; a valid value is returned unchanged. |
| HeaderValue.HeaderFieldValue.IntoSecret | src/header.rs:273-275 | The result is secret and has the same bytes. |
| HeaderValue.HeaderFieldValue.IntoVisible | src/header.rs:285-287 | The result is visible and has the same bytes. |
| HeaderValue.HeaderFieldValue.AsUtf8Str | src/header.rs:292-294 | One character per byte; for a normal value each character is the ASCII character of its byte. |
| HeaderValue.HeaderFieldValue.Debug | src/header.rs:184-185 | A secret renders as `HeaderFieldValue(<REDACTED>)`; a visible value renders as `HeaderFieldValue(` + its text + `)`. |
| HeaderValue.LaterToggleWins | src/header.rs:272-287 | Of two toggles, the later one sets the tag; each toggle is idempotent; a toggle to the tag a value already has returns it unchanged. |
| HeaderValue.SecretRenderingIgnoresContent | src/header.rs:183 | Any two secret values render identically, whatever their bytes. |
| HeaderValue.VisibleRenderingShowsContent | src/header.rs:139-147 | Two visible values render identically if and only if they hold the same bytes. |
| HeaderValue.RedactionMarkerMayContainContent | src/header.rs:143 | A secret with bytes `RED` has `RED` at positions 18–20 of its rendering. |

## Left out

- Ownership and moves are not modelled. The consuming methods return new values.
- `into_inner` (src/header.rs:115-117, 156-160, 268-270) returns the same bytes as `as_bytes`. Both are the `bytes` field of the model, read through `AsBytes`.
- `ValueType::as_bytes` is likewise the shared `bytes` field of both variants.
- `Vec::with_capacity` and the `VecDeque` conversion are not modelled. Capacity is invisible to callers. The deque is a sequence drained from the front.
- A `&str` argument (`from_static`, `from_str`) is given as its UTF-8 bytes. The model has no UTF-8 encoder, so the unit-test inputs are written as bytes.
- `from_utf8_unchecked` is modelled as one character per byte, with the byte as its code point. That agrees with UTF-8 only for ASCII bytes. The model proves that every constructed name and value is ASCII, which covers every value the constructors produce.
- The `Formatter` plumbing of `Debug` is not modelled. Debug output is the rendered string.
- The derived `Debug` of `HeaderFieldName` (src/header.rs:44) is not modelled.
- The `TryFrom<&[u8]>` and `FromStr` implementations (src/header.rs:47-61, 187-201) only call `from_bytes`. They are not repeated.
- The two tables are written one source line per sequence and laid end to end, instead of as one 256-element literal. The entries and their order are those of src/header.rs:7-34.
- HeaderName.HeaderFieldName.AsBytes: states validity only for valid names, because names from the unchecked constructors may hold null placeholders despite the comment at src/header.rs:121.
- HeaderName.HeaderFieldName.AsUtf8Str: states that the text is the ASCII reading of the bytes only for normal names, for the same reason (src/header.rs:128).
- HeaderValue.HeaderFieldValue.AsBytes: states validity only for valid values, for the same reason (src/header.rs:242).
- HeaderValue.HeaderFieldValue.AsUtf8Str: states that the text is the ASCII reading of the bytes only for normal values, for the same reason (src/header.rs:291).

# Launchpad manifest handler, modelled in Dafny

The Launchpad launcher describes a game's directory tree by a *manifest*: a text
file with one record per line, `<relative path>:<hash>:<size>`. `ManifestHandler`
keeps two lists of such records, the current manifest and the old one. Every read
of its `Manifest` or `OldManifest` property loads the matching file again and
appends the records of the lines that parse to the list. The list is never
cleared, so repeated reads accumulate. `ManifestEntry` is the record. It has a
parser, `TryParse`, and a formatter, `ToString`.

The model has five modules:

- `Wrappers` (`wrappers.dfy`): `Option`. `None` stands for a C# `null` string.
- `Text` (`text.dfy`): the .NET string operations the parser uses.
  `String.Split(':')` is `Split`, proved to be undone by `Join`.
  `String.Replace(char, char)` is `Replace`.
  The white-space trimming of `NumberStyles.Integer` is `Trim`.
- `LongText` (`long_text.dfy`): `long.ToString()` as `FormatLong` and
  `long.TryParse` as `ParseLong`. The parser skips leading and trailing white space
  (U+0009 to U+000D and U+0020). It then accepts an optional `+` or `-`, one or
  more decimal digits, and a value in [-2^63, 2^63 - 1].
- `ManifestEntries` (`manifest_entry.dfy`): the record, `DefaultEntry` (the
  parameterless constructor), `TryParse` and `Format` (`ToString`).
  `TryParse` returns a `ParseOutcome`: the boolean result together with what the
  method leaves in its `out` entry. On a bad size that entry already holds the path
  and the hash.
- `ManifestHandlers` (`manifest_handler.dfy`): the class `ManifestHandler`. It has
  the two list fields as `seq<ManifestEntry>`, the two loaders as loops that append,
  and the two property getters.

Some inputs come from outside `ManifestHandler.cs`, so they are parameters.
`Utilities.Clean` is the function parameter `clean`; its code is not part of this
model. The host's `Path.DirectorySeparatorChar` and `Path.AltDirectorySeparatorChar`
form the `Host` parameter. The file a loader reads is a `ManifestFile` with three
cases: `Missing` (`File.Exists` is false), `Unreadable` (`File.ReadAllLines` throws
an `IOException`) or `Present(lines)`. `ReadAllLines` reads the whole file before
the loop starts, so an `IOException` leaves the list as it was.

On these points the model follows the code as written:

- A line is refused up front only when it is null or empty (`String.IsNullOrEmpty`).
  A white-space-only line fails because it does not split into three fields, unless
  `Clean` changes it.
- The size field is parsed as any `long`, so negative sizes are accepted
  (`NegativeSizeAccepted`).
- Each load appends to what earlier loads left in the list; nothing clears it
  (`ReadTwice`).
- The separator rewrite replaces the alternate separator with the main one, and
  only in that direction. On a host where the two are the same character, the path
  is kept as it is. .NET gives `/` for both on Unix-like systems, so there a `\` is
  not turned into `/`, although the comment at line 145 says it would be.

## Model

| member | source | states |
|---|---|---|
| `ManifestEntries.DefaultEntry` | Launchpad_Launcher/Handlers/ManifestHandler.cs:122-127 | the parameterless constructor leaves path and hash empty and size 0; its `ToString` is `::0` |
| `ManifestEntries.Format` | Launchpad_Launcher/Handlers/ManifestHandler.cs:171-174 | `ToString` joins path, hash and decimal size with `:`; when path and hash hold no `:`, splitting the text on `:` gives those three fields back |
| `ManifestEntries.TryParse` | Launchpad_Launcher/Handlers/ManifestHandler.cs:129-169 | success only for a non-null, non-empty line whose cleaned form has exactly two colons; the entry's path never holds the alternate separator when it differs from the host's; on failure the size is 0 |
| `ManifestEntries.TryParseNullOrEmpty` | Launchpad_Launcher/Handlers/ManifestHandler.cs:132-168 | a null or empty line fails and leaves the empty entry, and the result does not depend on the sanitiser, so `Clean` is not consulted |
| `ManifestEntries.TryParseFieldCount` | Launchpad_Launcher/Handlers/ManifestHandler.cs:140-163 | when the cleaned line does not have exactly two colons (three fields), the parse fails and leaves the empty entry |
| `ManifestEntries.TryParseFields` | Launchpad_Launcher/Handlers/ManifestHandler.cs:140-158 | for a cleaned line `path:hash:size`, the entry gets the path with alternate separators rewritten and the hash verbatim; success holds exactly when `size` parses as a `long`, which then is the size; otherwise path and hash are still written and the size is 0 |
| `ManifestEntries.SplitThree` | Launchpad_Launcher/Handlers/ManifestHandler.cs:140 | three colon-free fields joined by `:` split back into exactly those three |
| `ManifestEntries.RoundTrip` | Launchpad_Launcher/Handlers/ManifestHandler.cs:129-174 | `TryParse(ToString(e))` succeeds and returns `e` when path and hash hold no `:`, the path holds no alternate separator that the host would rewrite, and `Clean` leaves the text unchanged |
| `ManifestEntries.NegativeSizeAccepted` | Launchpad_Launcher/Handlers/ManifestHandler.cs:149-153 | a record with a negative size parses, and the negative value becomes the size |
| `Text.Split` | Launchpad_Launcher/Handlers/ManifestHandler.cs:140 | `Split(':')` yields one more field than there are colons; no field holds a colon; joining the fields with `:` gives back the input |
| `Text.SplitJoin` | Launchpad_Launcher/Handlers/ManifestHandler.cs:140 | splitting undoes joining when no field holds the delimiter |
| `Text.Replace` | Launchpad_Launcher/Handlers/ManifestHandler.cs:146 | every alternate separator becomes the host separator and every other character stays; none is left when the two differ; a path without one is unchanged |
| `LongText.FormatLong` | Launchpad_Launcher/Handlers/ManifestHandler.cs:173 | `Size.ToString()` is a `-` exactly when the size is negative, followed by the shortest decimal digits of its magnitude (no leading zero) |
| `LongText.ParseLong` | Launchpad_Launcher/Handlers/ManifestHandler.cs:150 | `long.TryParse` trims U+0009 to U+000D and U+0020 on both sides; what it accepts is then a digit, or a `+` or `-` followed by at least one digit, with digits only after that, in the range [-2^63, 2^63 - 1]; a negative value comes only with a leading `-` |
| `LongText.ParseUnsigned` | Launchpad_Launcher/Handlers/ManifestHandler.cs:150 | any non-empty digit string, leading zeros included, reads as its decimal value when that is at most 2^63 - 1, and is refused otherwise |
| `LongText.ParsePlus` | Launchpad_Launcher/Handlers/ManifestHandler.cs:150 | a `+` in front of a digit string leaves the result unchanged |
| `LongText.ParseMinus` | Launchpad_Launcher/Handlers/ManifestHandler.cs:150 | a `-` in front of a digit string gives the negated value when that is at least -2^63, and a refusal otherwise; `-0` reads as 0 |
| `LongText.FormatNat` | Launchpad_Launcher/Handlers/ManifestHandler.cs:173 | the decimal digits of a size, with no leading zero, read back as the same number |
| `LongText.ParseFormatLong` | Launchpad_Launcher/Handlers/ManifestHandler.cs:150-152 | `long.TryParse` of `long.ToString()` of any `long` succeeds with the same value |
| `LongText.ParseRejectsOutOfRange` | Launchpad_Launcher/Handlers/ManifestHandler.cs:150-158 | the decimal text of an integer outside the `long` range is refused |
| `LongText.ParseIgnoresSurroundingWhite` | Launchpad_Launcher/Handlers/ManifestHandler.cs:150 | any run of leading and any run of trailing white space around the size text leaves the parse unchanged |
| `ManifestHandlers.ManifestHandler.constructor` | Launchpad_Launcher/Handlers/ManifestHandler.cs:9-47 | a new handler starts with both lists empty, as the field initialisers at lines 9 and 25 make them; the constructor body at lines 44-47 adds nothing |
| `ManifestHandlers.ManifestHandler.LoadManifest` | Launchpad_Launcher/Handlers/ManifestHandler.cs:49-73 | `manifest` becomes its old value followed by the entries of the file's lines that parse, in file order; a missing or unreadable file leaves it unchanged; `oldManifest` is untouched |
| `ManifestHandlers.ManifestHandler.LoadOldManifest` | Launchpad_Launcher/Handlers/ManifestHandler.cs:75-99 | `oldManifest` becomes its old value followed by the entries of the file's lines that parse, in file order; a missing or unreadable file leaves it unchanged; `manifest` is untouched |
| `ManifestHandlers.ManifestHandler.Manifest` | Launchpad_Launcher/Handlers/ManifestHandler.cs:16-23 | the getter loads and returns the whole accumulated `manifest` list |
| `ManifestHandlers.ManifestHandler.OldManifest` | Launchpad_Launcher/Handlers/ManifestHandler.cs:32-39 | the getter loads and returns the whole accumulated `oldManifest` list |
| `ManifestHandlers.ReadTwice` | Launchpad_Launcher/Handlers/ManifestHandler.cs:16-23 | reading `Manifest` twice on an unchanged file adds the file's entries twice, and `manifest` ends up equal to the second result |
| `ManifestHandlers.ParseAllAppend` | Launchpad_Launcher/Handlers/ManifestHandler.cs:58-65 | loading lines `a + b` gives the entries of `a` followed by those of `b`, so order is kept |
| `ManifestHandlers.SkipsMalformedLine` | Launchpad_Launcher/Handlers/ManifestHandler.cs:60-64 | a line that fails to parse adds nothing, and the lines around it load as if it were absent |
| `ManifestHandlers.ParseAllSound` | Launchpad_Launcher/Handlers/ManifestHandler.cs:58-65 | every loaded entry is the successful parse of some line of the file |
| `ManifestHandlers.ParseAllComplete` | Launchpad_Launcher/Handlers/ManifestHandler.cs:58-65 | the entry of every line that parses is among the loaded entries |
| `ManifestHandlers.ParseAllLength` | Launchpad_Launcher/Handlers/ManifestHandler.cs:58-65 | a load never adds more entries than the file has lines |
| `ManifestHandlers.LoadFormatted` | Launchpad_Launcher/Handlers/ManifestHandler.cs:57-65 | a file holding the `ToString` of each entry, one per line, loads as exactly those entries in order, when every entry meets the conditions of the round trip |

## Left out

- The locks `ManifestLock` and `OldManifestLock` (lines 41-42, 53, 79) are not modelled. They only serialise concurrent loads, and the model is sequential.
- `File.Exists`, `File.ReadAllLines` and `ConfigHandler.GetManifestPath`/`GetOldManifestPath` are replaced by the `ManifestFile` input. The model assumes that both path lookups in one load name the same file, and that the file does not change between the existence test and the read.
- `File.ReadAllLines` can also throw exceptions that are not `IOException`s, such as `UnauthorizedAccessException`. The catch does not handle those and they leave the getter. The model covers only the `IOException` case.
- The `Console.WriteLine` diagnostics in the `IOException` handlers are not modelled; they are logging only.
- `Utilities.Clean` is not part of this model. It is an arbitrary function parameter, and the round trip assumes it leaves the formatted text unchanged.
- `ManifestHandlers.ManifestHandler.Manifest`: the getter returns a reference to the live list, which later loads keep changing. The model returns the list's value at the time of the call, so that aliasing is not captured. The same holds for `ManifestHandlers.ManifestHandler.OldManifest`.
- `LongText.ParseLong` follows the invariant culture (signs `+` and `-`). Culture-specific sign strings are not modelled. Neither is .NET's acceptance of trailing NUL characters after the digits.
- Strings are sequences of Unicode scalar values. A .NET string stands for its decoding. A .NET string that is not well-formed UTF-16, such as one with a lone surrogate, has no model. A character outside the Basic Multilingual Plane is one character here but two .NET `char`s. Splitting on `:` and replacing `/` or `\` are not affected.
- `ManifestEntries.TryParse` takes the two directory separators as a `Host` parameter. It does not pick the values of a particular operating system.

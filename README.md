# igvf-post: the TSV parser and the Basic credential, in Dafny

`igvf-post` reads a tab-separated file, turns every data line into a JSON
object and posts the objects to an igvfd server with an HTTP Basic
credential. This project models the two pieces of `main.js` that hold logic
and proves what they do:

- `tsvToObjects` (main.js:28-64) is modelled in module `Tsv`.
  - The first line is split on tabs, and each header cell is cleaned down to
    `[a-zA-Z0-9_-]`.
  - Every later line is split on tabs, and the first carriage return is
    removed from each cell.
  - The `reduce` over the header columns builds one record per line.
  - A header tagged `-array`, `-date` or `-number` (the second
    hyphen-separated segment) stores a converted value under the segment
    before the first hyphen. Any other header stores the raw cell under the
    whole name.
  - The `reduce` updates its accumulator object in place. It is the method
    `Tsv.BuildRecord`, a loop over the columns that updates a `map` and is
    proved equal to the left fold `Tsv.Reduce`.
  - The outer `map` over the lines is the method `Tsv.BuildRecords`, proved
    equal to the fold `Tsv.Rows`. `Tsv.TsvToObjects` runs it on the lines
    after the header and is proved equal to `Tsv.Objects`.
  - `new Date(..).toISOString()` and `Number(..)` depend on the engine. They
    are the two fields of `Tsv.Builtins`, a parameter of every operation. The
    date field returns `None` where `toISOString` throws, and that exception
    ends the whole call (`Tsv.Error`).
- `keypairToAuth` (main.js:13-16) is modelled in module `Auth`. It builds
  the credential of section 2 of RFC 7617: `"Basic "` followed by the
  base64 (section 4 of RFC 4648) of `key:secret`.
  - The encodings it passes through are written out:
    - UTF-8 (RFC 3629): `Buffer.from`.
    - `encodeURIComponent`.
    - `unescape`.
    - base64: `toString("base64")`.
  - This exposes that the code UTF-8-encodes non-ASCII credentials twice
    (see Findings).

Supporting modules:

- `JsString`: `String.prototype.split` with a one-character separator, its
  inverse `Join`, and `replace` with a string pattern (first occurrence only).
- `Base64`: the encoder and a strict decoder, proved inverse in both
  directions.
- `UriCoding`: UTF-8, `encodeURIComponent`, `unescape` and one-char-per-byte
  strings.
- `Wrappers`: `Option` and `Result`.

Two points about the code that its comments do not make plain:

- main.js:39 removes only the first `"\r"` of each cell, wherever it stands,
  not every trailing one (`JsString.ReplaceFirstKeepsRest`).
- main.js:14-16 is not UTF-8-safe: every non-ASCII character of the
  credential is encoded twice (Findings).

## Model

| member | source | states |
|---|---|---|
| JsString.Split | main.js:29 | `split` with a one-character separator always yields at least one piece |
| JsString.SplitCount | main.js:29 | there is one piece per separator occurrence plus one |
| JsString.SplitPiecesFree | main.js:37 | no piece contains the separator |
| JsString.JoinSplit | main.js:29 | joining the pieces with the separator gives back the original string |
| JsString.SplitJoin | main.js:48 | splitting the join of separator-free pieces gives back exactly those pieces |
| JsString.SplitWithoutSeparator | main.js:48 | a string without the separator splits into itself alone |
| JsString.SplitHead | main.js:52 | the first piece is a separator-free prefix, followed by a separator or the end of the string |
| JsString.SplitSecond | main.js:45 | the second piece is the first piece of what follows the first separator |
| JsString.SplitPrefix | main.js:29 | a separator-free prefix joins onto the first piece of what follows it, and the other pieces are unchanged |
| JsString.SplitAtSeparator | main.js:45-47 | a separator-free prefix and a separator split off as one piece, and the rest splits on its own |
| JsString.SplitFirstTwo | main.js:45-47 | with two or more pieces, the string starts with piece 0, a separator and piece 1, followed by the end or another separator |
| JsString.SplitTwoPieces | main.js:45-47 | conversely, piece 0 and piece 1 of such a string are the two separator-free parts |
| JsString.SplitFirstEmpty | main.js:45 | the first piece is empty if and only if the string is empty or starts with the separator |
| JsString.SplitTrailing | main.js:29 | a trailing separator produces a final empty piece |
| JsString.IndexOf | main.js:39 | the index found holds the character, and no earlier index does |
| JsString.ReplaceFirst | main.js:39 | `value.replace("\r", "")`: the string with its first `"\r"` removed and every other character kept in order |
| JsString.ReplaceFirstRemovesFirst | main.js:39 | `replace(c, "")` removes exactly the first occurrence of `c` and leaves a string without `c` unchanged |
| JsString.ReplaceFirstAbsent | main.js:39 | a string holding no `c` is left unchanged by `replace(c, "")` |
| JsString.ReplaceFirstAt | main.js:39 | removing at the first position holding `c` gives the text before it followed by the text after it |
| JsString.ReplaceFirstKeepsRest | main.js:39 | everything after the first `"\r"` is kept, including any later `"\r"` |
| Tsv.Clean | main.js:31-33 | `property.replace(/[^a-zA-Z0-9_-]/g, "")`: the name with every character outside `[a-zA-Z0-9_-]` dropped |
| Tsv.CleanAllowed | main.js:31-33 | a cleaned header holds only `[a-zA-Z0-9_-]` |
| Tsv.CleanAppend | main.js:31-33 | cleaning works character by character and keeps the survivors in their original order |
| Tsv.CleanFixedPoint | main.js:31-33 | cleaning leaves a name unchanged if and only if every character is allowed |
| Tsv.CleanShorter | main.js:31-33 | cleaning never lengthens a name |
| Tsv.CleanIdempotent | main.js:31-33 | cleaning twice is the same as cleaning once |
| Tsv.KindOf | main.js:45-56 | the kind of a column: array, date or number when the second hyphen-separated segment is exactly that tag, a string column otherwise (also when there is no hyphen) |
| Tsv.KeyOf | main.js:47-57 | the key a column stores under: the segment before the first hyphen for a typed column, the whole name otherwise |
| Tsv.TypedHeader | main.js:45-55 | `base-array`, `base-date` or `base-number` (optionally followed by `-...`) is typed by its tag and keyed by `base` |
| Tsv.UntypedHeader | main.js:45-57 | a second segment that is not a recognised tag (such as `a-b`) gives a string column keyed by the whole name |
| Tsv.UnhyphenatedHeader | main.js:45-57 | a name without a hyphen has no tag and is keyed by itself |
| Tsv.TypedHeaderShape | main.js:45-55 | every typed name is its key, a hyphen, its tag, then the end or another hyphen; the key holds no hyphen |
| Tsv.CellAt | main.js:43 | `values[index]`, with a missing cell read as the empty string, which the truthiness test skips |
| Tsv.Convert | main.js:46-57 | the value a non-empty cell becomes: its comma-split, the date part of its ISO string (or the date error), `Number(cell)`, or the cell itself |
| Tsv.ConvertMeaning | main.js:46-57 | each kind of column converts as described below; a date conversion fails exactly when the parse fails |
| Tsv.Assign | main.js:48-57 | `object[key] = value` on an object made by `{}`: the key is set, except `__proto__`, which never becomes an own key |
| Tsv.Reduce | main.js:42-61 | the `reduce` over the first n columns from `{}`, skipping empty cells and stopping at the first exception |
| Tsv.RecordOf | main.js:42-61 | the record of one line: `Reduce` over every column of the header |
| Tsv.AssignAt | main.js:48-57 | storing under a key other than `__proto__` makes it hold the value, and other keys are unchanged |
| Tsv.ReduceStep | main.js:42-61 | one successful step of the fold either skips an empty cell or stores the converted cell under the column's key |
| Tsv.ReduceKeys | main.js:42-61 | a key is present if and only if some column with a non-empty cell resolves to it |
| Tsv.ReduceValue | main.js:42-61 | a key holds the value of the last column that resolves to it, so a later column wins |
| Tsv.ReduceFails | main.js:49-52 | the fold throws if and only if some non-empty date cell fails to parse; the model records the first such cell in the error |
| Tsv.ReduceFailureSticks | main.js:42-61 | once the fold has thrown, later columns do not change the outcome |
| Tsv.ReduceBlank | main.js:43 | a line with only empty or missing cells gives the empty record |
| Tsv.BuildRecord | main.js:42-61 | the in-place loop over the columns computes exactly the fold `RecordOf` |
| Tsv.Lines | main.js:29 | there is always at least one line |
| Tsv.Header | main.js:30-33 | there is one property per tab-separated cell of the first line |
| Tsv.Cells | main.js:37-39 | there is one value per tab-separated cell of a line |
| Tsv.HeaderAllowed | main.js:30-33 | every property name holds only `[a-zA-Z0-9_-]` |
| Tsv.Rows | main.js:36-62 | the `map` over the first n data lines, in order, stopping at the first exception |
| Tsv.Objects | main.js:28-64 | `tsvToObjects(tsv)`: `Rows` over every line after the header, with the cleaned header as property names |
| Tsv.RowsOnePerLine | main.js:36-62 | a successful map has one record per line, the i-th built from line i |
| Tsv.RowsFail | main.js:36-62 | the map throws if and only if some line's record throws, with the exception from the first such line |
| Tsv.RowsStep | main.js:36-62 | one more line either appends its record or ends the map with its exception |
| Tsv.RowsFailureSticks | main.js:36-62 | once the map has thrown, later lines do not change the outcome |
| Tsv.RowsStopAt | main.js:36-62 | the first line whose record throws decides the result of the whole map |
| Tsv.ObjectsOnePerLine | main.js:28-64 | there is one record per newline of the input, the i-th built from line i + 1, and the call fails if and only if one of those lines fails |
| Tsv.ObjectsFail | main.js:49-52 | the whole call throws if and only if some data line has a non-empty cell in a date column that fails to parse |
| Tsv.TrailingNewline | main.js:29 | a trailing newline produces a final record with no keys |
| Tsv.TsvToObjects | main.js:28-64 | the whole operation computes exactly `Objects`, about which the lemmas above are proved |
| Tsv.BuildRecords | main.js:36-62 | the loop over the data lines computes exactly the fold `Rows`: one record per line, or the first line's exception |
| Base64.AlphabetBijective | main.js:16 | the 64-character alphabet and its lookup are inverse, and `=` is outside the alphabet |
| Base64.Encode | main.js:16 | `toString("base64")`: full groups of three bytes become four alphabet characters; a last group of one or two bytes is padded with `==` or `=` |
| Base64.Decode | main.js:16 | the strict decoder, the reference inverse of `Encode`: groups of four, padding only at the end, dropped bits zero |
| Base64.EncodeLength | main.js:16 | the encoding has four characters for every started group of three bytes, so its length is a multiple of 4 |
| Base64.EncodeAlphabet | main.js:16 | the encoding uses only the alphabet and `=` |
| Base64.SingleRoundTrip | main.js:16 | a last group of one byte, padded with `==`, decodes back to that byte |
| Base64.PairRoundTrip | main.js:16 | a last group of two bytes, padded with `=`, decodes back to those bytes |
| Base64.TripleRoundTrip | main.js:16 | a full group decodes back to its three bytes |
| Base64.DecodeCons | main.js:16 | decoding a group followed by more groups gives the group's bytes followed by the rest |
| Base64.DecodeEncode | main.js:16 | decoding the encoding gives back the bytes |
| Base64.GroupRoundTrip | main.js:16 | a group the decoder accepts is the encoding of the bytes it decodes to |
| Base64.GroupSingle | main.js:16 | a final group the decoder accepts with `==` padding is the encoding of its one byte |
| Base64.GroupPair | main.js:16 | a final group the decoder accepts with `=` padding is the encoding of its two bytes |
| Base64.GroupTriple | main.js:16 | an unpadded group the decoder accepts is the encoding of its three bytes |
| Base64.EncodeDecode | main.js:16 | a string the decoder accepts is the encoding of its result, so each byte sequence has exactly one encoding |
| UriCoding.Utf8Char | main.js:14-15 | a character takes 1 to 4 UTF-8 bytes, and exactly 1 when it is below 0x80 |
| UriCoding.Utf8 | main.js:14-15 | the UTF-8 bytes of a string, character by character, which is also what `Buffer.from(s)` holds |
| UriCoding.EncodeURIComponent | main.js:15 | unreserved characters are kept, every other character becomes `%XX` escapes of its UTF-8 bytes in upper-case hexadecimal |
| UriCoding.Unescape | main.js:15 | each `%XX` escape becomes the character with that code, any other character is copied |
| UriCoding.Latin1 | main.js:15 | `unescape` yields one character per byte |
| UriCoding.HexValue | main.js:15 | a hexadecimal digit stands for a value in 0..15 |
| UriCoding.Utf8Append | main.js:14-15 | UTF-8 encodes a string character by character |
| UriCoding.Utf8Ascii | main.js:14-15 | an ASCII string encodes to its character codes; a string is ASCII if and only if its encoding has no byte at or above 0x80 |
| UriCoding.HighCountAppend | main.js:14-15 | the counts of high bytes in two pieces add up |
| UriCoding.Latin1Utf8 | main.js:14-15 | re-encoding a binary string adds one byte per high byte, and changes nothing when there is none |
| UriCoding.HexRoundTrip | main.js:15 | the two digits `encodeURIComponent` writes for a byte read back as that byte |
| UriCoding.UnescapePercent | main.js:15 | `unescape` turns percent-escaped bytes back into one character per byte |
| UriCoding.UnescapeEncode | main.js:15 | `unescape(encodeURIComponent(s))` is the one-char-per-byte string of the UTF-8 bytes of `s` |
| UriCoding.Latin1Append | main.js:15 | a binary string is built byte by byte |
| Auth.UserPass | main.js:15 | the template `${key}:${secret}` |
| Auth.AsWrittenBytes | main.js:14-15 | the bytes `Buffer.from(unescape(encodeURIComponent(..)))` holds |
| Auth.KeypairToAuthAsWritten | main.js:13-16 | `keypairToAuth(key, secret)` as the code computes it: `Basic ` and the base64 of those bytes |
| Auth.KeypairToAuth | main.js:13-16 | the intended credential: `Basic ` and the base64 of the UTF-8 bytes of `key:secret`, encoded once |
| Auth.AsWrittenDoubleEncodes | main.js:14-16 | the code base64-encodes the UTF-8 encoding of the UTF-8 bytes of `key:secret` |
| Auth.KeypairToAuthDecodes | main.js:13-16 | the intended credential starts with `Basic `; the rest has a length divisible by 4, uses only the base64 alphabet and `=`, and decodes to the UTF-8 bytes of `key:secret` |
| Auth.AsciiRoundTrip | main.js:13-16 | for ASCII credentials the payload decodes to the character codes of `key:secret`, which read back as `key:secret` |
| Auth.AsWrittenAgreesIffAscii | main.js:13-16 | the code's credential equals the intended one if and only if `key:secret` is ASCII |
| Auth.AsWrittenCounterexample | main.js:13-16 | key `é` with secret `x` gives a credential different from the intended one |
| Auth.AbcXyzExample | main.js:13-16 | key `abc` with secret `xyz` gives `Basic YWJjOnh5eg==` |
| Auth.AbcXyzUtf8 | main.js:14-15 | `abc:xyz` encodes to its seven character codes |
| Auth.AbcXyzBase64 | main.js:16 | those seven bytes encode to `YWJjOnh5eg==` |
| Auth.EacuteUtf8 | main.js:14-15 | `é:x` encodes to C3 A9 3A 78 |
| Auth.EacuteIntended | main.js:13-16 | the intended credential for key `é` and secret `x` is `Basic w6k6eA==` |
| Auth.EacuteDoubled | main.js:14-15 | re-encoding C3 A9 3A 78 gives C3 83 C2 A9 3A 78 |
| Auth.EacuteSixBytes | main.js:16 | those six bytes encode to `w4PCqTp4` |
| Auth.EacuteAsWrittenBytes | main.js:14-15 | the code base64-encodes C3 83 C2 A9 3A 78 for key `é` and secret `x` |
| Auth.EacuteAsWritten | main.js:13-16 | the code sends `Basic w4PCqTp4` for key `é` and secret `x` |

`Tsv.ConvertMeaning` states the following for each kind of column:

- array: the value is the comma-split of the cell. It is never empty, it joins back to the cell, it has one item per comma plus one, and it is the cell alone when the cell has no comma.
- date: the value is the part of the ISO string before its first `T`.
- number: the value is `Number(cell)`.
- anything else: the raw cell.

## Left out

- Tsv.Error: the exception main.js:52 throws is `toISOString`'s RangeError ("Invalid time value"), which carries no cell; the cell in `InvalidDate` is recorded by the model so that lemmas can say which cell threw first.
- `postObjects` (main.js:70-93) is not modelled: its HTTP POSTs, console logging and JSON parsing of responses are network I/O.
- The command line and file handling (main.js:95-120) are not modelled: the `commander` options, the reading of the TSV and key files, `JSON.parse`, and the error on a missing profile.
- How `new Date(..)` reads a date, and what `Number(..)` returns (IEEE-754 doubles, NaN), are not modelled. Both are opaque functions passed in through `Tsv.Builtins`. The date function gives `None` exactly where `toISOString` would throw.
- Records are maps, so the insertion order of their keys, which `JSON.stringify` would show, is not modelled.
- Tsv.Assign: the `__proto__` key is modelled only as never becoming an own property. For an array-typed `__proto__` column, JavaScript would replace the object's prototype; this side effect is not represented.
- UriCoding.Unescape: only the `%XX` form of `unescape` is modelled. The `%uXXXX` form is not, because `encodeURIComponent` never produces it.
- UriCoding.EncodeURIComponent: the `URIError` that `encodeURIComponent` throws on a lone surrogate is not modelled, because a Dafny `char` is a Unicode scalar value, so lone surrogates cannot be represented.

## Findings

| source | as written | input that shows it | evidently intended | confidence | as-written member | corrected member |
|---|---|---|---|---|---|---|
| main.js:14-16 | `Buffer.from(unescape(encodeURIComponent("key:secret")))` UTF-8-encodes a string that already holds one character per UTF-8 byte, so every non-ASCII character is encoded twice | key `é`, secret `x`: the code sends `Basic w4PCqTp4` (bytes C3 83 C2 A9 3A 78) | `Basic w6k6eA==`, the base64 of the UTF-8 bytes C3 A9 3A 78 of `é:x`, as RFC 7617 section 2 prescribes for a UTF-8 charset | not executed | Auth.KeypairToAuthAsWritten, Auth.AsWrittenAgreesIffAscii, Auth.AsWrittenCounterexample, Auth.EacuteAsWritten | Auth.KeypairToAuth, Auth.KeypairToAuthDecodes, Auth.EacuteIntended |

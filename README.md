# haveibeenpwned-cli in Dafny

A model of the local half of the `haveibeenpwned` command-line tool's
k-anonymity password lookup. The tool hashes a password with SHA-1 and renders
the 20-byte digest as 40 lower-case hexadecimal digits. It requests
`https://api.pwnedpasswords.com/range/` followed by the first five digits only.
It splits the response body into non-empty lines. It returns the first line
that contains the remaining 35 digits, ignoring case, or `null` when no line
does. The entry point dispatches on the number of arguments and shows the hash
and count fields of the returned line.

Modules:

- `Wrappers`: `Option`. Its `None` stands for C#'s `null`.
- `Text`: the .NET string operations the core calls, with ordinal comparison:
  `Contains`, `Split` with and without `RemoveEmptyEntries`, `ToLower` restricted
  to ASCII, and `Trim` with `Char.IsWhiteSpace`'s character set. `IndexFrom` is
  the ordinal search that `Split` and `Contains` perform.
- `ByteArrayHelper`: `ConvertToHexString` as a loop method, proved against the
  function `Hex`. A decoder `Unhex` is its inverse.
- `WebHelper`: the remote server as an object. `GetWebResponseContent` answers a URL
  with the server's body for it and appends the URL to a ghost log of requests, so
  the log records what leaves the machine.
- `PawnageHelper`: the prefix/suffix split, the range URL, the first-match scan, and
  `GetPawnageInfo` as a loop method. It is proved to return the specification
  function `PawnageInfo` and to send exactly one request, the range URL.
- `Program`: `Main` (here `Run`, returning the outcome shown and the exit status),
  the field extraction `Report`, and the in-file copies of `GetPawnageInfo` and
  `ConvertToHexString`. Each copy is proved to compute the same specification
  function as its `ByteArrayHelper` or `PawnageHelper` counterpart.

UTF-8 encoding, SHA-1 (any function returning a 20-byte `Digest`) and
`Environment.NewLine` (any non-empty string) are given as a `Platform` value.

Behaviour of the code that the model keeps as it is:

- The code matches by case-insensitive containment of the suffix in the whole line.
  It does not compare the hash field for equality.
- It returns the raw line and never parses the count.
- A line without `:` makes `Split(':')[1]` throw in `Main`.

## Model

| member | source | states |
|---|---|---|
| ByteArrayHelper.Hex | HaveIBeenPawned/ByteArrayHelper.cs:14-18 | the encoding has exactly two characters per byte, so the empty array gives the empty string |
| ByteArrayHelper.FormatX2 | HaveIBeenPawned/ByteArrayHelper.cs:17 | `{0:x2}` gives two lower-case hex digits that decode to the byte's high and low nibble |
| ByteArrayHelper.HexAt | HaveIBeenPawned/ByteArrayHelper.cs:15-18 | characters 2i and 2i+1 are the high and low nibble digits of byte i |
| ByteArrayHelper.HexIsLowerHex | HaveIBeenPawned/ByteArrayHelper.cs:17 | every character of the encoding is in 0-9a-f (the `x2` format) |
| ByteArrayHelper.HexConcat | HaveIBeenPawned/ByteArrayHelper.cs:15-18 | encoding distributes over concatenation |
| ByteArrayHelper.HexRoundTrip | HaveIBeenPawned/ByteArrayHelper.cs:15-18 | decoding the digit pairs gives the original bytes back |
| ByteArrayHelper.HexInjective | HaveIBeenPawned/ByteArrayHelper.cs:15-18 | distinct byte sequences have distinct encodings |
| ByteArrayHelper.ConvertToHexString | HaveIBeenPawned/ByteArrayHelper.cs:12-21 | the appending loop returns exactly `Hex` of the whole array |
| Text.IndexFrom | HaveIBeenPawned/PawnageHelper.cs:25 | the result is the leftmost occurrence at or after the start, and None means there is none |
| Text.Contains | HaveIBeenPawned/PawnageHelper.cs:28 | true exactly when the text occurs at some index |
| Text.Split | HaveIBeenPawned/PawnageHelper.cs:25 | at least one piece, and no piece contains the separator |
| Text.JoinSplit | HaveIBeenPawned/PawnageHelper.cs:25 | joining the pieces with the separator rebuilds the input |
| Text.RemoveEmpty | HaveIBeenPawned/PawnageHelper.cs:25 | keeps every non-empty piece and nothing else |
| Text.SplitNonEmpty | HaveIBeenPawned/PawnageHelper.cs:25 | every line is non-empty, contains no separator, and is a piece of the split; every non-empty piece is a line |
| Text.RemoveEmptyOne | HaveIBeenPawned/PawnageHelper.cs:25 | a single piece is dropped when empty and kept otherwise |
| Text.RemoveEmptyConcat | HaveIBeenPawned/PawnageHelper.cs:25 | removing empty entries distributes over concatenation, so the kept pieces stay in their original order |
| Text.SplitNonEmptyFirst | HaveIBeenPawned/PawnageHelper.cs:25 | the text before the first separator, if non-empty, is the first line, followed by the lines of the rest: lines keep response order |
| Text.LowerChar | HaveIBeenPawned/PawnageHelper.cs:28 | the result is never an upper-case ASCII letter; only 'A'..'Z' change, each to its lower-case letter |
| Text.Lower | HaveIBeenPawned/PawnageHelper.cs:28 | same length; every upper-case ASCII letter lowered, every other character unchanged |
| Text.IsWhiteSpace | HaveIBeenPawned/Program.cs:47 | `Char.IsWhiteSpace`: U+0009..U+000D, U+0020, U+0085, U+00A0, U+1680, U+2000..U+200A, U+2028, U+2029, U+202F, U+205F, U+3000 |
| Text.TrimStart | HaveIBeenPawned/Program.cs:47 | drops exactly the leading white space |
| Text.TrimEnd | HaveIBeenPawned/Program.cs:47 | drops exactly the trailing white space |
| Text.Trim | HaveIBeenPawned/Program.cs:47 | the result is a slice of the input with only white space around it, and it neither starts nor ends with white space |
| Text.TrimPadded | HaveIBeenPawned/Program.cs:47 | trimming white space around an untrimmable core gives that core |
| WebHelper.Server.GetWebResponseContent | HaveIBeenPawned/WebHelper.cs:13-24 | the URL is appended to the requests sent, and the server's body for that URL is returned |
| PawnageHelper.Prefix | HaveIBeenPawned/PawnageHelper.cs:23 | `Substring(0, 5)`: five characters that begin the hex string |
| PawnageHelper.Suffix | HaveIBeenPawned/PawnageHelper.cs:28 | `Substring(5)`: the rest, so the first five characters followed by it give the hex string back |
| PawnageHelper.RangeUrl | HaveIBeenPawned/PawnageHelper.cs:23 | the URL is the fixed endpoint followed by exactly the 5-character prefix |
| PawnageHelper.Matches | HaveIBeenPawned/PawnageHelper.cs:28 | `line.ToLower().Contains(suffix.ToLower())` holds exactly when the suffix occurs in the line with letters compared regardless of ASCII case |
| PawnageHelper.PasswordHex | HaveIBeenPawned/PawnageHelper.cs:18-20 | the hex string of the password's digest has 40 characters |
| PawnageHelper.PawnageInfo | HaveIBeenPawned/PawnageHelper.cs:15-36 | a result is a non-empty line of the response to the range URL that contains the suffix, ignoring case; None exactly when no such line does |
| PawnageHelper.DigestSplit | HaveIBeenPawned/PawnageHelper.cs:20-28 | the prefix has 5 digits and the suffix 35; together they form the full hex string; the suffix is lower case, so `ToLower` leaves it unchanged |
| PawnageHelper.RangeUrlRevealsOnlyPrefix | HaveIBeenPawned/PawnageHelper.cs:22-23 | two digests give the same URL exactly when their first 20 bits agree, so no suffix digit reaches the URL |
| PawnageHelper.FindFrom | HaveIBeenPawned/PawnageHelper.cs:26-32 | the index is that of the first matching line at or after the start, or the end of the list |
| PawnageHelper.FirstMatch | HaveIBeenPawned/PawnageHelper.cs:26-35 | a result is a line that matches, and no earlier line matches; None exactly when no line matches |
| PawnageHelper.GetPawnageInfo | HaveIBeenPawned/PawnageHelper.cs:15-36 | exactly one request is sent, the range URL of the password's hex string, and the early-return scan returns `PawnageInfo` of the server's answer |
| PawnageHelper.SuffixLineIsFound | HaveIBeenPawned/PawnageHelper.cs:28 | a line `<suffix in any case>:<count>` is the result when no earlier line matches |
| PawnageHelper.CountFieldCanMatch | HaveIBeenPawned/PawnageHelper.cs:28 | containment lets a line match through its count field, whatever its hash field is |
| PawnageHelper.ShortCountMatchIsExact | HaveIBeenPawned/PawnageHelper.cs:28 | for a line with a 35-character hash field and a count shorter than 35 characters, containment is the same as case-insensitive equality of the hash field |
| Program.Report | HaveIBeenPawned/Program.cs:39-47 | null gives the not-found message and a line gives the found message; when the count is missing the hash shown is the whole line, which has no `:` |
| Program.Run | HaveIBeenPawned/Program.cs:30-55 | no argument: help and exit 0 with no request sent; one argument: one request, the range URL of its hex string, and the report of the lookup; more: the error and exit -1 with no request sent |
| Program.GetPawnageInfo | HaveIBeenPawned/Program.cs:63-84 | the in-file copy sends the same single request and returns the same `PawnageInfo` as `PawnageHelper.GetPawnageInfo` |
| Program.ConvertToHexString | HaveIBeenPawned/Program.cs:119-128 | the in-file copy computes the same `Hex` as `ByteArrayHelper.ConvertToHexString` |
| Program.SplitAtFirstColon | HaveIBeenPawned/Program.cs:46 | the first `:`-field is the text before the first colon; the other fields are those of the rest |
| Program.FirstTwoFields | HaveIBeenPawned/Program.cs:46-47 | `Split(':')` of `<hash>:<count>[:<more>]` has at least two fields, the hash and the count |
| Program.ReportFields | HaveIBeenPawned/Program.cs:39-47 | a found line shows the text before the first `:` as the hash and the trimmed text between the first and second `:` as the count |
| Program.ReportCountMissing | HaveIBeenPawned/Program.cs:46-47 | the count field is missing (`Split(':')[1]` throws) exactly when the line has no `:`; the whole line is then the hash |

## Left out

- SHA-1 (`SHA1CryptoServiceProvider.ComputeHash`) and `Encoding.UTF8.GetBytes` are library calls. They are fields of `Platform`; only the 20-byte digest length is assumed.
- WebHelper.Server.GetWebResponseContent: the server's answer is a fixed function of the URL. Network exceptions (`WebException`), timeouts and answers that change between calls are not modelled. `Program.GetWebResponseContent` (Program.cs:91-102) is the same code and is modelled by the same method.
- WebHelper.Server: the request log covers calls to `GetWebResponseContent`. Nothing in the model stops other code from reading `Server.respond` directly; no code in the program does.
- `DisplayHelp` and all console text are presentation. `Outcome` names the message shown.
- `Environment.Exit(-1)` is modelled as exit code -1. The operating system's view of that code (255 on Unix) is not modelled. The exit status after an unhandled exception is runtime-specific; it is modelled as `UnhandledException`.
- `ToLower` is culture-sensitive in .NET. It is modelled as ASCII lower-casing, which covers hexadecimal digits. Non-ASCII letters in response lines are not lowered.
- `Environment.NewLine` is a `Platform` parameter with any non-empty value. An empty separator, where .NET splits on white space instead, cannot occur and is excluded.
- `Substring(0, 5)` and `Substring(5)` require at least five characters. The hex string always has 40, so the out-of-range exception is not modelled.
- Console output written before `Split(':')[1]` throws (the hash line) appears in `CountMissing(hash)`. The stack trace is not modelled.
- An exact-field matcher is not modelled, because the code uses containment. `ShortCountMatchIsExact` states when the two agree.

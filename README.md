# Zip comparison: a Dafny model

This project models the comparison core of a small web service that compares
two zip archives entry by entry (`app.py`). For every entry name of either
archive, unless its extension is excluded, the comparison reports:

- whether the name is in the first and in the second archive;
- each copy's recorded size, rendered in binary units ("1.50 KB");
- whether the two copies have the same xxh64 content hash.

Before any entry is looked at, the comparison checks each archive's size and
zip format, then checks that an encrypted archive comes with a password. Any
error during the pass aborts the whole comparison, so no partial result is
returned. Every error leaving the comparison carries the prefix
"Error during zip comparison: ".

The model has four modules, plus a `Results` module with `Option`/`Result`:

- `PathExt` (`path_ext.dfy`) models `get_file_extension`. It covers POSIX
  `os.path.splitext`, ASCII `str.lower` and the exclusion key
  `'.' + ext.lower()`.
- `SizeFormat` (`size_format.dfy`) models `format_file_size`.
  - `FormatFileSize` is a method with the source's loop.
  - `FormatSize` is the specification function. It divides by exact powers
    of 1024 and rounds the hundredths half-to-even, as `f"{x:.2f}"` does.
- `ExcludeList` (`exclude_list.dfy`) models how the request handler turns the
  exclusion field into a list: split on ',', then strip each item.
- `ZipCompare` (`zip_compare.dfy`) models `zip_comparison`.
  - An archive is a record: its size on disk, whether it is a zip file,
    whether it is encrypted and with which password, and its entries by name.
    Each entry holds its recorded size, its bytes, and whether reading it
    ends in a CRC-32 mismatch, with the library's message for it.
  - `CompareEntries` is the loop that fills the result map. `ZipComparison`
    runs the prechecks first and then that loop.
  - `CompareEntry` and `Filled` specify what the loop computes, for one name
    and for the whole map.

Several natural expectations of the service do not hold in the code: that
exclusion is case-insensitive, that the extension is the text after the last
dot, and that the format is checked before the size. The model follows the
code:

- Exclusion is not case-insensitive. Only the entry's key is lower-cased; the
  exclusion items are used as given, so an item ".TXT" never matches
  (`UpperCaseItemNeverMatches`, `UpperCaseItemIgnored`).
- The extension is not "the text after the last dot". It is POSIX splitext:
  - a dot in a directory name does not count;
  - leading dots of the last component do not start an extension.
- The checks are not "validity, then size". For each archive in turn, the
  size comes first and then the zip format; then come the two password
  checks.
- An empty password counts as missing, as `not password` does in Python.

## Model

| member | source | states |
|---|---|---|
| PathExt.RFind | app.py:23 | The last index of a character in a string, or -1; no later index holds it. |
| PathExt.SplitExt | app.py:23 | The two parts concatenate back to the path. The extension is empty, or it is a '.' followed by neither '.' nor '/'. |
| PathExt.BasenameOnly | app.py:23 | Only the text after the last '/' decides the extension. |
| PathExt.LeadingDotsSkipped | app.py:23 | A last component made of leading dots and a dot-free name (".env") has no extension. |
| PathExt.SimpleExtension | app.py:23 | Splitting `stem.ext` yields (stem, ".ext") when the stem is not only dots. |
| PathExt.NoDotNoExtension | app.py:23 | A name without '.' has an empty extension. |
| PathExt.GetFileExtension | app.py:22-23 | The extension holds no '.' and no '/'. It is empty exactly when splitext finds no extension or only a bare '.'; otherwise it is what follows the splitext root and a dot. |
| PathExt.LowerChar | app.py:59 | `lower` maps A-Z to a-z and leaves every other character alone. |
| PathExt.Lower | app.py:59 | The lower-cased string has the same length and is lower-cased character by character. |
| PathExt.ExtensionKey | app.py:59 | The exclusion key starts with '.'. |
| PathExt.ExtensionKeyShape | app.py:59 | The key holds no upper-case letter and no '.' or '/' after its first character. It is "." exactly when the name has no extension. |
| PathExt.KeyOfSimpleExtension | app.py:59 | The key of `stem.ext` is "." + lower(ext) for every slash-free stem that is not only dots (e.g. "a.TXT" has the key ".txt"). |
| PathExt.KeyUnderDirectory | app.py:59 | A name under a directory has the key of its last component (e.g. "logs/app.log" has the key of "app.log"). |
| PathExt.NoDotKey | app.py:59 | A name without a dot (e.g. "README") has the key ".". |
| PathExt.DotFileKey | app.py:59 | Leading dots followed by a dot-free, slash-free name (e.g. ".env") give the key ".". |
| PathExt.DirectoryDotKey | app.py:59 | `dir + "/" + base` with a dot-free base has the key "." whatever the directory (e.g. "dir.d/file"). |
| PathExt.UpperCaseItemNeverMatches | app.py:59-60 | An exclusion item holding an upper-case letter equals no entry's key. |
| SizeFormat.UnitIndex | app.py:16-17 | The unit is the least k < 4 with size < 1024^(k+1), else TB. |
| SizeFormat.UnitIndexUnique | app.py:16-17 | The unit bounds single out the unit index. |
| SizeFormat.RoundHalfEven | app.py:18 | The result is within 0.5 of x, and even on a tie. |
| SizeFormat.RoundHalfEvenUnique | app.py:18 | The rounding contract has exactly one solution. |
| SizeFormat.Decimal | app.py:18 | `str(n)` is a non-empty digit string without a leading zero. |
| SizeFormat.DecimalRoundTrip | app.py:18 | Reading the decimal digits of n gives back n. |
| SizeFormat.Fixed2 | app.py:18 | `f"{x:.2f}"` is digits, a point and two digits. It denotes x in hundredths, rounded half-to-even, and the integer part has no leading zero. |
| SizeFormat.FormatSize | app.py:15-20 | The formatted size ends with a space and the unit UnitIndex picks; FormatSizeFrom gives the number in front of it. |
| SizeFormat.FormatFileSize | app.py:15-20 | The loop that divides by 1024 returns FormatSize of the size. |
| SizeFormat.FormatSizeFrom | app.py:15-20 | FormatSize is the decimal rendering of the rounded hundredths of size/1024^k, then the unit. |
| SizeFormat.FormatSizeZero | app.py:15-20 | 0 bytes give "0.00 B". |
| SizeFormat.FormatSizeBelowKilobyte | app.py:15-20 | 1023 bytes give "1023.00 B". |
| SizeFormat.FormatSizeOneKilobyte | app.py:15-20 | 1024 bytes give "1.00 KB". |
| SizeFormat.FormatSizeHalfKilobyte | app.py:15-20 | 1536 bytes give "1.50 KB". |
| SizeFormat.FormatSizeTieToEven | app.py:15-20 | 3200 bytes (3.125 KB) give "3.12 KB". |
| SizeFormat.FormatSizeRoundsUp | app.py:15-20 | 1048575 bytes give "1024.00 KB". |
| SizeFormat.FormatSizeOneMegabyte | app.py:15-20 | 1048576 bytes give "1.00 MB". |
| ExcludeList.SplitOn | app.py:118 | `split(',')` gives one more piece than there are commas, and no piece holds a comma. |
| ExcludeList.JoinSplit | app.py:118 | Joining the pieces with the separator gives back the text. |
| ExcludeList.SplitJoin | app.py:118 | Separator-free pieces, joined and then split, come back unchanged. |
| ExcludeList.LeadingSpace | app.py:118 | The white space at the start is exactly the first n characters. |
| ExcludeList.TrailingSpace | app.py:118 | The white space at the end is exactly the last n characters. |
| ExcludeList.Strip | app.py:118 | `strip()` is a slice of the input with only white space cut off before and after it, and it has no white space at either end. |
| ExcludeList.StripKeepsAbsent | app.py:118 | Stripping adds no character. |
| ExcludeList.StripUnchanged | app.py:118 | Text without white space at either end is unchanged by strip. |
| ExcludeList.StripEach | app.py:118 | Each item is the stripped piece at the same position. |
| ExcludeList.ParseExcludeList | app.py:118 | An empty field gives []. Otherwise item i is the stripped i-th comma-separated piece, one per piece; items hold no comma and no white space at either end. |
| ExcludeList.ParseTwoItems | app.py:118 | "a, b" parses to [a, b]. |
| ZipCompare.MaxSizeTextIsDecimal | app.py:13 | The limit in the message is `str(MAX_SIZE_MB)`. |
| ZipCompare.Reason | app.py:36-88 | The text of the failure before the prefix; a read error keeps the library's own text. The fixed texts are the source's literals. |
| ZipCompare.Message | app.py:90-91 | Every error leaving the comparison starts with "Error during zip comparison: ". A read error keeps its own text after that prefix. |
| ZipCompare.OpenKey | app.py:49-50 | The key entries are opened with is the password when it is truthy (`Truthy`: present and not empty, as `if password1`), and none otherwise. |
| ZipCompare.IsZipEncrypted | app.py:25-30 | An archive is reported encrypted exactly when its members do not open without a password. |
| ZipCompare.Precheck | app.py:34-46 | The precheck passes exactly when both archives are within 50 MiB and are zip files, and each encrypted archive has a truthy password (`Truthy`, the negation of `not password` at app.py:43/45). Otherwise the first failing check decides the error: size then format of the first archive, size then format of the second, a missing password for the first, then for the second. |
| ZipCompare.CompareEntry | app.py:63-78 | The membership flags, and sizes present exactly for the archives holding the name. The content is read only for equal recorded sizes in both (`ReadsContent`, the guard at app.py:73-74); a name that is not read never fails. A key the archive's password check rejects (`Opens`, the check `zipfile` makes when a member is opened at app.py:75) gives the incorrect-password error. With both keys accepted, a CRC error of the first copy, then of the second, aborts with that error. Otherwise `identical` is the hash equality of the two contents. |
| ZipCompare.SizeOf | app.py:65-71 | A size is present exactly when the archive holds the name, and it is the formatted recorded size. |
| ZipCompare.ExcludeSet | app.py:56 | `set(exclude_list)` holds every item of the list and nothing else. |
| ZipCompare.Retained | app.py:52-61 | The retained names are names of the two archives; no name is invented. |
| ZipCompare.RetainedNames | app.py:52-61 | With no exclusions every name of either archive is kept. Excluding "." drops every name without an extension. A name whose key is excluded is dropped whichever archive holds it. |
| ZipCompare.EqualContentsIdentical | app.py:73-78 | Equal contents read without error are reported identical. |
| ZipCompare.UnreadNeverFails | app.py:63-74 | A name in one archive only, or with different sizes, gets a non-identical record and never fails, whatever the passwords. |
| ZipCompare.UpperCaseItemIgnored | app.py:56-61 | Adding an exclusion item with an upper-case letter changes no retained name. |
| ZipCompare.FilledMeansNoFailure | app.py:58-82 | A complete result map exists only when no retained name fails. |
| ZipCompare.FilledIsUnique | app.py:58-82 | The complete result map is unique, so it does not depend on the visiting order. |
| ZipCompare.FailingEntry | app.py:84-88 | One failing retained name means the pass fails. |
| ZipCompare.CompareFile | app.py:63-80 | Building the record field by field gives CompareEntry's record or error. |
| ZipCompare.CompareEntries | app.py:48-88 | Success holds exactly when no retained name fails. The map then has exactly the retained names, each with its CompareEntry record; otherwise the error is that of some retained name. |
| ZipCompare.ZipComparison | app.py:32-91 | A failed precheck is returned as is. Otherwise the call succeeds exactly when no retained name fails, with the complete map; a failure is some retained name's error. |

## Left out

- The HTTP handler, CORS preflight, upload field checks, `secure_filename`, temporary files and status codes (app.py:94-146) are not modelled. They are request plumbing; only the exclusion parsing at line 118 is modelled.
- The zip library internals are not modelled: container parsing, `is_zipfile`, `testzip`, ZipCrypto and `getinfo`.
  - The archive record stands in for them.
  - `valid` is the result of `is_zipfile`, and `encrypted` is that of `is_zip_encrypted`.
  - A single password per archive decides whether members open. `Opens` accepts exactly that password.
  - The library's ZipCrypto check compares one byte of the decrypted header, so about one wrong password in 256 passes the open. The read then fails with a library error (a CRC mismatch or a decompression error), not the incorrect-password error. The model does not capture this.
  - An archive with only some entries encrypted is not modelled.
- Opening an encrypted member with no key raises a "password required" error in the library, not "Bad password". The model reports IncorrectPassword for it. After the prechecks this cannot happen, because an encrypted archive always has a truthy password by then.
- A CRC-32 mismatch found when a member is read to its end is an optional message on the entry; the model reports it as is.
- Errors raised when a member is opened are not modelled, such as a damaged local header. In the source such an error of the first copy comes before the second archive's password check. `testzip` catches it, so it shows only when the pass opens that member.
- A damaged deflate stream (`zlib.error`) and a truncated member (`EOFError`) are not modelled.
  - For an unencrypted archive, `is_zip_encrypted` runs `testzip`, which reads the members in order (app.py:27). `testzip` catches only `BadZipFile` (a CRC mismatch or a damaged header), and `is_zip_encrypted` catches only `RuntimeError`.
  - `testzip` stops at the first member that raises `BadZipFile`. Such an error in a member read before that point escapes both handlers.
  - The comparison then aborts at the password checks (app.py:43-46), even when the member is excluded or held by one archive only. The model has no such abort.
- Members whose compression method the library does not support are not modelled, and neither are WinZip-AES members (method 99).
  - The library raises `NotImplementedError` for them when the member is opened, before any password check. Reserved flag bits raise it too.
  - `NotImplementedError` is a kind of `RuntimeError`, so `is_zip_encrypted` (app.py:29) reports such an archive as encrypted even when it is not.
  - Without a password the comparison fails with the missing-password error.
  - With any password, right or wrong, it passes the prechecks. The error appears only when the pass opens that member (app.py:75): only for a name in both archives with equal recorded sizes that is not excluded.
  - app.py:84-88 re-raises it with the library's own text, never the incorrect-password text.
- Duplicate member names are not modelled: `namelist()` is turned into a set, and the archive record is a map.
- The xxh64 algorithm is a parameter, a deterministic function from bytes to a 64-bit digest. Collisions are not excluded.
- `os.path.getsize` is the record's `byteSize`. Python's float comparison `size / 2^20 > 50` is modelled as the exact integer comparison with 50 · 2^20, which is exact for every size below 2^53.
- ZipCompare.Message does not state the fixed texts of the other errors in its contract. They are the literal strings in `Reason`.
- SizeFormat.FormatSize models the value as the exact rational size / 1024^k. Python's float equals it for sizes below 2^53 bytes; larger sizes would round in the float.
- `str.lower` and `str.isspace` are modelled on ASCII only; Unicode case mapping and Unicode spaces are not modelled.
- The set iteration order is left open: `CompareEntries` picks any remaining name. Which error is reported when several names fail is therefore stated only as "the error of some retained name".

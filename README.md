# cattree, modelled in Dafny

cattree prints every text file under a directory tree. Each file is
printed as a record: a `==<relative path>==` header, the file's contents
and a newline. Directories named `.git` are skipped, as are paths that
match the root's `.gitignore` rules. A file counts as text when it can be
opened and read (reaching end of file counts as success), and its first
8000 bytes are either empty or contain no NUL byte and have fewer
non-printable runes than one in ten of the runes decoded from them. A file
that cannot be opened, or whose read fails with an error other than end of
file, is not text.

This model covers three parts, one module each:

- `Utf8` (`utf8.dfy`) models Go's `utf8.DecodeRune`, the decoder the
  classifier calls. It follows the way Go's implementation is written: a
  class for the leading byte, an accepted range for the second byte, then
  continuation bytes. It is proved equal to two definitions taken from
  RFC 3629: the encoding table of section 3 (`Encode`) and the UTF8-char
  ABNF of section 4 (`IsUtf8Char`). Every byte that does not start a
  well-formed sequence decodes to `(RuneError, 1)`.
- `Classifier` (`classifier.dfy`) models `isText` and `isTextFile`.
  - `IsText` is a method with the source's loop. Its contract ties it to
    `IsTextSpec`, a function that splits the data into decoded units
    (`Units`) and counts the non-printable ones (`CountNonPrintable`).
  - `IsTextFile` takes the outcome of the open and of the read as
    parameters. It classifies the first 8000 bytes (`Sample`).
- `Walker` (`walker.dfy`) models the `filepath.WalkDir` callback in
  `main`.
  - The file system is an `Entry` tree: directories with children in
    listing order, and files.
  - Each I/O call the walk makes has its outcome recorded in the tree: a
    directory listing, and the sniffing open, the sniffing read and the
    second open of a file.
  - `Walk` returns the bytes written to standard output and the lines
    written to standard error.
  - It is specified by `WalkIsFilter`, which compares it with a reference
    definition: `Files` lists the files reached in pre-order, skipping
    `.git` directories. `Emit` gives the records printed for them, and
    `Failures` the diagnostics.

Two behaviours of the code are worth stating outright:

- A file that cannot be opened is skipped with no diagnostic:
  `isTextFile` returns false when its open fails (cattree.go:21-24).
  - A diagnostic comes only from an access error that `WalkDir` itself
    reports: a root that cannot be stat'ed, or a directory that cannot be
    listed.
  - `UnreadableScenario` states both halves.
- With the rule `secret.txt`, `.gitignore` is itself printed: it is a text
  file that no rule matches. `IgnoreScenario` states the output with the
  records of both `.gitignore` and `a.txt`.

## Model

| member | source | states |
|---|---|---|
| Utf8.DecodeRune | cattree.go:48 | an empty slice decodes to `(RuneError, 0)`; otherwise one rune is consumed, using 1 to 4 bytes and never more than the slice holds |
| Utf8.Encode | cattree.go:48 | the reference encoder from section 3 of RFC 3629; every scalar value encodes to one UTF8-char of the section 4 ABNF, and to one byte exactly when it is below 0x80 |
| Utf8.DecodeEncode | cattree.go:48 | decoding the encoding of any scalar value, followed by any bytes, gives that value back and consumes exactly its encoding |
| Utf8.EncodeDecode | cattree.go:48 | whatever `DecodeRune` accepts is a scalar value, and the bytes it consumed are that value's encoding |
| Utf8.Utf8CharDecodes | cattree.go:48 | a UTF8-char at the front of the input is decoded as one valid rune of its own length |
| Utf8.InvalidIff | cattree.go:48-50 | `DecodeRune` gives `(RuneError, 1)` if and only if no prefix of the input is a UTF8-char |
| Utf8.MultibyteIsAtLeast80 | cattree.go:48-51 | a rune decoded from two or more bytes is at least 0x80 |
| Classifier.Units | cattree.go:47-56 | the loop's steps: each unit's size is 1 to 4, the sizes add up to the input length, there are at most as many units as bytes, and nonempty data has at least one |
| Classifier.IsNonPrintable | cattree.go:49-53 | no contract of its own: a unit is non-printable when it is `(RuneError, 1)` or a control rune other than tab, LF and CR; its consequences are stated by `IllFormedIsOneNonPrintableUnit`, `MultibyteIsPrintable` and `AsciiUnits` |
| Classifier.CountNonPrintable | cattree.go:45-53 | the count of non-printable units never exceeds the number of units |
| Classifier.CounterBounds | cattree.go:45-58 | for nonempty data `total` is between 1 and `len(data)`, so the ratio is defined, and `nonPrintable` is between 0 and `total` |
| Classifier.IsText | cattree.go:36-59 | the loop computes `IsTextSpec`: empty data is text, data containing NUL is not, otherwise text exactly when 10 times the non-printable count is below the unit count |
| Classifier.IsTextSpec | cattree.go:36-59 | no contract of its own: the verdict of `isText` as a function of the data; `IsText` is proved equal to it, and `NulIsBinary`, `AsciiThreshold` and `PrintableUtf8IsText` state its properties |
| Classifier.Sample | cattree.go:27-32 | the sniffed sample is a prefix of the contents of length min(len, 8000) |
| Classifier.IsTextFile | cattree.go:20-33 | a file is text exactly when the open succeeds, the read succeeds or reports EOF, and its sample is text |
| Classifier.IsTextFileSpec | cattree.go:20-33 | no contract of its own: the verdict of `isTextFile`; `IsTextFile` is proved equal to it, and `OnlyPrefixMatters` states its properties |
| Classifier.IllFormedIsOneNonPrintableUnit | cattree.go:48-50 | where no prefix is a UTF8-char, the loop takes exactly one byte and counts it as non-printable |
| Classifier.MultibyteIsPrintable | cattree.go:51 | every rune decoded from two or more bytes counts as printable |
| Classifier.EncodedReplacementIsPrintable | cattree.go:49-51 | a well-formed, encoded U+FFFD (size 3) is not counted as an error, because the test checks `size == 1` |
| Classifier.NulIsBinary | cattree.go:40-43 | any data that contains a NUL byte is not text |
| Classifier.AsciiUnits | cattree.go:47-56 | on ASCII data every byte is one unit, and the non-printable count is the number of control bytes other than tab, LF and CR |
| Classifier.PrintableAsciiIsText | cattree.go:36-59 | ASCII data made of printable bytes, tab, LF and CR is text |
| Classifier.UnitsOfEncoding | cattree.go:47-56 | the units of the encoding of a list of scalar values are exactly those values, each with its encoded length |
| Classifier.EncodingHasNoNul | cattree.go:40-43 | the encoding of nonzero scalar values contains no NUL byte |
| Classifier.PrintableUtf8IsText | cattree.go:36-59 | any well-formed UTF-8 text whose code points are all printable or tab, LF or CR is text |
| Classifier.AsciiThreshold | cattree.go:51-58 | nonempty ASCII data without NUL is text if and only if 10 times its control-byte count is below its length |
| Classifier.ExactlyTenPercentIsBinary | cattree.go:58 | one control byte in ten bytes (exactly 10%) is binary |
| Classifier.UnderTenPercentIsText | cattree.go:58 | one control byte in eleven bytes is text |
| Classifier.OnlyPrefixMatters | cattree.go:17-32 | bytes after the first 8000 never change the verdict |
| Walker.Ignored | cattree.go:100 | no contract of its own: a path is ignored only when rules were loaded and they match it; `Callback`'s contract and `IgnoreLast` state its effect |
| Walker.RelPath | cattree.go:99 | `filepath.Rel(root, path)`: the root itself is `.`, and an entry directly under the root is its own name |
| Walker.FullPath | cattree.go:88 | the `path` WalkDir passes: the root itself is the root path, and under the root `.` the path is the relative path |
| Walker.AccessError | cattree.go:90 | no contract of its own: the line `Error accessing <path>: <err>\n`; `DiagnosticsAreAccessErrors` and `UnreadableScenario` state where it appears |
| Walker.Header | cattree.go:107 | no contract of its own: the line `==<rel>==\n`; stated by `RecordLayout` and `HelloScenario` |
| Walker.Record | cattree.go:107-115 | no contract of its own: the header, the contents and the newline of `fmt.Println`; stated by `RecordLayout` and `HelloScenario` |
| Walker.OpenError | cattree.go:110 | no contract of its own: the line `  [error opening file: <err>]\n`; stated by `RecordLayout` |
| Walker.Callback | cattree.go:88-117 | the callback returns `SkipDir` exactly for a directory named `.git`; it prints a diagnostic exactly for an access error; and it prints something exactly for a file that is not ignored and is text |
| Walker.WalkEntry | cattree.go:88-117 | WalkDir at one entry: a directory named `.git` prints nothing and reports nothing, and a file never produces a diagnostic; its full behaviour is stated by `WalkIsFilter` |
| Walker.WalkChildren | cattree.go:88-117 | the walk of a directory's children in listing order: children that are all files produce no diagnostic; its full behaviour is stated by `WalkChildrenIsFilter` |
| Walker.Walk | cattree.go:88-117 | `filepath.WalkDir(root, ...)`: a root that cannot be stat'ed gives exactly one `Error accessing <root>: <err>` line and no output, and a root that is a file reports nothing; the rest is stated by `WalkIsFilter` and `DiagnosticsAreAccessErrors` |
| Walker.WalkIsFilter | cattree.go:88-117 | the walk prints the record of every file it reaches, in pre-order, skipping `.git` directories, and one diagnostic per failed listing |
| Walker.FailedDirIsFilter | cattree.go:89-92 | a directory whose listing fails gives one diagnostic with its path, and the entries that were listed are still walked |
| Walker.WalkChildrenIsFilter | cattree.go:88-117 | the children of a directory are walked one after another, and their outputs are concatenated in listing order |
| Walker.FilesAvoidGit | cattree.go:93-96 | no file reached lies under a directory named `.git` |
| Walker.NothingUnderGitIsEmitted | cattree.go:93-96 | standard output holds records only for files that lie under no `.git` directory; a root named `.git` prints nothing |
| Walker.RecordLayout | cattree.go:107-115 | a record is `==rel==\n`, the contents, then `\n`; if the second open fails, it is the header then `  [error opening file: err]\n` |
| Walker.DiagnosticsAreAccessErrors | cattree.go:89-92 | standard error holds `Error accessing <path>: <err>` for a root that cannot be stat'ed, or else one such line per failed listing, in walk order |
| Walker.ListingErrorsKeepOutput | cattree.go:89-92 | failed listings do not change standard output: it equals the output of the same tree with every listing successful |
| Walker.SingleFile | cattree.go:88-117 | a directory holding one file prints what the callback prints for that file, and nothing on standard error |
| Walker.FlatWalk | cattree.go:88-117 | a directory of files, listed without error, prints the files' records in listing order and no diagnostics |
| Walker.HelloScenario | cattree.go:88-117 | root `.` holding `a.txt` with `hello\n` prints exactly `==a.txt==\nhello\n\n` |
| Walker.IgnoreLast | cattree.go:99-102 | a file the rules match prints nothing; the files around it still print their records |
| Walker.IgnoreScenario | cattree.go:99-102 | with a rule matching `secret.txt`, the root prints the records of `.gitignore` and `a.txt` |
| Walker.SkipUnreadable | cattree.go:88-106 | a text file prints its record; the unlistable directory after it gives one diagnostic; the file after that, which cannot be opened, is skipped silently |
| Walker.UnreadableScenario | cattree.go:88-106 | root `.` holding, in sorted order, `a.txt`, an unlistable `locked` and an unopenable `x.txt` prints `a.txt`'s record and the one line `Error accessing locked: <err>` |
| Walker.GitFileIsKept | cattree.go:93-98 | a regular file named `.git` is not pruned; it is handled like any other file |

## Left out

- Flag parsing and the usage text (cattree.go:61-73) are not modelled. The root is a parameter of `Walk`.
- Loading `.gitignore` (cattree.go:75-86) is not modelled: opening it, reading it with `bufio.Scanner` and compiling the lines. The rules are a parameter, `Option<Matcher>`. `None` stands for a missing `.gitignore`.
- The gitignore matching engine (`github.com/sabhiram/go-gitignore`) is not modelled. `Matcher` is an arbitrary predicate on relative paths, so every result holds for any matcher.
- Go's `unicode/utf8` and `path/filepath` are not part of this model's sources. `DecodeRune` follows RFC 3629 and the structure of Go's decoder. `WalkDir` follows its documented behaviour:
  - lexical pre-order;
  - a single error callback for a root that cannot be stat'ed (`os.Lstat` fails for any reason);
  - a second callback for a directory whose listing fails, after which the entries that were read are still walked;
  - `SkipDir` returned before the directory is listed.
- The order of directory entries is taken from the tree as given. The sorting `os.ReadDir` does is not modelled: a tree is assumed to list its children sorted by name, as the worked scenarios do.
- `filepath.Rel` and `filepath.Join` are modelled as joining components with `/`. `filepath.Clean` is not modelled (the root is assumed to be in clean form). The error from `filepath.Rel`, which the code discards, is not modelled.
- Classifier.IsText: the test `float64(nonPrintable)/float64(total) < 0.1` is written as `10 * nonPrintable < total`. They agree while `total` stays far below 2^50, because a nearest-rounded quotient cannot cross the double closest to 0.1 there. Through `isTextFile`, `total` is at most 8000.
- Classifier.IsTextFile: the single `Read` is assumed to return the whole sample, that is min(len, 8000) bytes. A short read from a pipe or device is not modelled.
- Walker.RecordLayout: `io.Copy` is modelled as copying the whole contents. An error partway through the copy is not modelled, and neither is a file that changes between the sniff and the copy.
- Writing to standard output and standard error is modelled as the values `Output.stdout` and `Output.stderr`. A failed write is not modelled.
- Closing files (`defer f.Close()`) has no effect on output and is not modelled.

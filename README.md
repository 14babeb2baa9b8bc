# OVA embedded-filesystem extractor, modelled in Dafny

This project models the OVA extractor of osv-scalibr
(`extractor/filesystem/embeddedfs/ova/ova.go`). The extractor takes a file handed to it
by the scanning pipeline and works in three steps:

1. It accepts the file only if its path's lower-cased extension is `.ova`.
2. It reads the whole content and checks that the first 512 bytes hold the ustar magic
   field, ASCII `"ustar"` at offset 257 (the POSIX.1-1988 ustar header of IEEE Std 1003.1).
3. It walks the tar archive. For every regular entry whose cleaned, lower-cased name ends
   in `.vdi`, `.vmdk`, `.vhd`, `.vhdx`, `.qcow`, `.qcow2` or `.qcow3`, it emits a
   placeholder package named `disk-image`, of the generic package type, located at the
   archive path joined with the cleaned entry name.

A failed read or a failed walk returns that error and no packages.

Files and modules:

- `go_io.dfy` (`GoIo`): bytes, errors, Go's nil-or-error result, and the outcome of
  reading the input (`io.ReadAll`).
- `go_strings.dfy` (`GoStrings`): `strings.ToLower` and `strings.HasSuffix`.
- `go_filepath.dfy` (`GoFilepath`): `filepath.Ext`, written as Go's backward scan.
  `filepath.Clean`, written as split, lexical resolution of `.`/`..`, and rejoin.
  `filepath.Join`, written as join-then-clean.
- `tar.dfy` (`Tar`): the archive reader seen as a cursor. A class `Reader` holds the
  headers of the archive in order and how the walk ends, either `EOF` or a
  malformed-archive error. `Next` advances the cursor.
- `selection.dfy` (`Selection`): the theory of the entry loop. Keeping the elements that
  pass a test and turning each into a record, in order (`Select`). `Explains` says that a
  list of records and their origins fit a list of elements. Lemmas say that it is kept
  by one more element and that it is unique.
- `ova.dfy` (`Ova`): the extractor. `FileRequired`, `IsTar`, the disk-image classifier,
  the placeholder package, the value-level description `Scan`, and the imperative
  `Extract`. `Extract` loops over a fresh `Tar.Reader` and appends packages. Its loop
  invariant is `Selection.Explains`: every package so far comes from an earlier matching
  entry, in order, and every matching entry so far has its package.
- `ova_properties.dfy` (`OvaProperties`): what the predicates mean, what each outcome of
  a scan is, and the cases of `ova_test.go`.

The tar library's parsing of the bytes is a parameter of `Scan` and `Extract`,
`tarStream: seq<byte> -> Tar.Stream`: it gives the headers the reader yields on the
content and how the walk over it ends. The input's content is a parameter too, a
`ReadResult`: the bytes, or a read failure.

Points where the code's behaviour is easy to misread:

- `Extract` never consults its context argument, so no cancellation is modelled.
- Cleaning does not confine an entry to the archive. `../../escape.vmdk` in `test.ova` is
  located at `../escape.vmdk` (`OvaProperties.TraversalExample`). In general, an entry
  `../../name` of an archive at a plain path is located at `../name`, outside the archive
  (`OvaProperties.TraversalIsKept`).
- The doc comment of `FileRequired` (ova.go:51) speaks of `.ovf` or `.ova` files. The
  code accepts `.ova` only, and so do its tests. The model follows the code.

## Model

| member | source | states |
|---|---|---|
| `Ova.FileRequired` | extractor/filesystem/embeddedfs/ova/ova.go:52-54 | Definition: the ASCII lower-cased `Ext` of the path is `.ova`. It has no contract of its own. `OvaProperties.FileRequiredIffSuffix` characterises it. |
| `Ova.IsTar` | extractor/filesystem/embeddedfs/ova/ova.go:121-128 | Definition: at least 262 bytes, with `ustar` at offset 257. It has no contract of its own. `OvaProperties.IsTarNeedsMagicField`, `OvaProperties.IsTarDependsOnMagicField` and `OvaProperties.IsTarOfPrefix` characterise it. |
| `Ova.Scan` | extractor/filesystem/embeddedfs/ova/ova.go:57-118 | Definition of the extractor's result on values. It has no contract of its own. `Ova.Extract` is proved equal to it. The outcome lemmas `NotOvaGivesNothing` to `CompleteWalkGivesDiskImages` characterise it. |
| `Ova.IsDiskImageName` | extractor/filesystem/embeddedfs/ova/ova.go:99-107 | Definition: the lower-cased name ends in one of the seven disk-image suffixes. It has no contract of its own. `OvaProperties.IsDiskImageNameIffExt` characterises it. |
| `Ova.IsDiskImage` | extractor/filesystem/embeddedfs/ova/ova.go:94-107 | Definition: a regular header whose cleaned name passes `IsDiskImageName`. It has no contract of its own. `OvaProperties.CompleteWalkGivesDiskImages` uses it. |
| `Ova.PackageFor` | extractor/filesystem/embeddedfs/ova/ova.go:110-114 | Definition: the `disk-image` package of the generic type, with the one location `Join(path, Clean(name))`. It has no contract of its own. `OvaProperties.SingleDiskImageArchive` and `OvaProperties.ExtractionTestCases` evaluate it. |
| `GoFilepath.Clean` | extractor/filesystem/embeddedfs/ova/ova.go:98 | Definition of `filepath.Clean` on `/`-separated paths. Its contract says only that the result is never empty. `GoFilepath.CleanIdempotent`, `GoFilepath.CleanPlainName` and `OvaProperties.TraversalIsKept` characterise it. |
| `GoFilepath.Join` | extractor/filesystem/embeddedfs/ova/ova.go:113 | Definition of `filepath.Join` of two arguments as a clean of their `/`-join. It has no contract of its own. `GoFilepath.JoinPlainNames` and `OvaProperties.TraversalIsKept` characterise it. |
| `GoStrings.ToLower` | extractor/filesystem/embeddedfs/ova/ova.go:53 | The result has the input's length. A character changes exactly when it is an upper-case ASCII letter, and the result holds no upper-case ASCII letter. |
| `GoStrings.ToLowerIdempotent` | extractor/filesystem/embeddedfs/ova/ova.go:53 | Lower-casing an already lower-cased string changes nothing. |
| `GoStrings.HasSuffix` | extractor/filesystem/embeddedfs/ova/ova.go:99-105 | Definition of `strings.HasSuffix`. It has no contract of its own. `OvaProperties.ExtensionSuffix` and `OvaProperties.IsDiskImageNameIffExt` use it. |
| `Ova.Extract` | extractor/filesystem/embeddedfs/ova/ova.go:57-118 | The method's result equals `Scan` on the same input and tar stream. It follows the source's steps: guard, read, sniff of at most 512 bytes, then the loop over `Next` that skips, classifies and appends. |
| `OvaProperties.FileRequiredIffSuffix` | extractor/filesystem/embeddedfs/ova/ova.go:52-54 | A path is accepted exactly when its lower-cased form ends in `.ova`, both directions. |
| `OvaProperties.ExtensionSuffix` | extractor/filesystem/embeddedfs/ova/ova.go:53 | For any extension `e` (a `.` and then neither `.` nor `/`), the lower-cased `filepath.Ext` equals `e` exactly when the lower-cased path ends in `e`. |
| `OvaProperties.ExtAtLastDot` | extractor/filesystem/embeddedfs/ova/ova.go:53 | `filepath.Ext` is the suffix from a `.` after which no `.` or `/` follows. |
| `GoFilepath.Ext` | extractor/filesystem/embeddedfs/ova/ova.go:53 | `filepath.Ext`'s result is a suffix of the path that is empty or starts with `.`, with no `.` or `/` after it. It is empty only if every `.` in the path has a `/` after it. |
| `OvaProperties.FileRequiredCases` | extractor/filesystem/embeddedfs/ova/ova_test.go:62-76 | Of the ten paths in the eligibility test table, `test.ova` is accepted and the other nine are rejected. |
| `OvaProperties.AcceptsTestOva` | extractor/filesystem/embeddedfs/ova/ova_test.go:66 | `test.ova` is accepted. |
| `OvaProperties.RejectedUnlessEndsInA` | extractor/filesystem/embeddedfs/ova/ova.go:52-54 | A path whose last character is not `a` or `A` is never accepted. |
| `OvaProperties.NotOvaGivesNothing` | extractor/filesystem/embeddedfs/ova/ova.go:61-64 | If the lower-cased path does not end in `.ova`, the scan returns an empty inventory and no error. The result is the same for any read outcome and any tar stream. |
| `OvaProperties.ReadFailureGivesError` | extractor/filesystem/embeddedfs/ova/ova.go:66-70 | For an accepted path, a failed read returns an empty inventory and the read's error. |
| `OvaProperties.IsTarNeedsMagicField` | extractor/filesystem/embeddedfs/ova/ova.go:121-125 | A buffer shorter than 262 bytes is never a tar archive. |
| `OvaProperties.IsTarDependsOnMagicField` | extractor/filesystem/embeddedfs/ova/ova.go:127 | Two buffers of at least 262 bytes that agree on bytes 257 to 261 get the same verdict. |
| `OvaProperties.TarMagicIsUstar` | extractor/filesystem/embeddedfs/ova/ova.go:127 | The magic constant is the five ASCII codes of `ustar`. |
| `OvaProperties.IsTarOfPrefix` | extractor/filesystem/embeddedfs/ova/ova.go:73-78 | Any prefix of at least 262 bytes gets the verdict of the whole buffer. |
| `Ova.SniffWindowSuffices` | extractor/filesystem/embeddedfs/ova/ova.go:74-78 | Cutting content longer than 512 bytes down to its first 512 does not change the sniffer's verdict. |
| `OvaProperties.NotUstarGivesNothing` | extractor/filesystem/embeddedfs/ova/ova.go:73-80 | For an accepted path, content whose first `min(512, len)` bytes fail the sniffer gives an empty inventory and no error. |
| `OvaProperties.WalkFailureDiscardsPackages` | extractor/filesystem/embeddedfs/ova/ova.go:84-92 | A walk that ends in an error gives an empty inventory and that error, however many headers came before it. |
| `OvaProperties.CompleteWalkGivesDiskImages` | extractor/filesystem/embeddedfs/ova/ova.go:83-117 | A walk that reaches EOF gives no error and exactly one package per regular header whose cleaned name is a disk image. The packages are in header order, and non-regular or non-matching headers add nothing. Each package is `disk-image`, generic, with the single location `Join(path, Clean(name))`. |
| `OvaProperties.IsDiskImageNameIffExt` | extractor/filesystem/embeddedfs/ova/ova.go:98-107 | The seven suffix tests on the lower-cased cleaned name hold exactly when the name's lower-cased extension is in the set of seven disk-image extensions. |
| `Selection.ExplainsStep` | extractor/filesystem/embeddedfs/ova/ova.go:94-114 | One more header keeps the loop invariant. The package of a matching header is appended with that header's position as its origin; any other header adds nothing. |
| `Selection.ExplainsUnique` | extractor/filesystem/embeddedfs/ova/ova.go:84-115 | The loop invariant fixes the result: packages and origins that fit the headers are exactly `Select` and the positions of the kept headers. |
| `Selection.SelectExplained` | extractor/filesystem/embeddedfs/ova/ova.go:84-115 | `Select` fits the headers, with the positions of the kept headers as origins. |
| `Selection.ExplainsDropKept` | extractor/filesystem/embeddedfs/ova/ova.go:110-114 | If the last header is kept, the last package is the one made from it. Without both, the invariant still holds. |
| `Selection.ExplainsDropOther` | extractor/filesystem/embeddedfs/ova/ova.go:94-107 | A last header that is not kept can be dropped without touching the packages. |
| `Selection.SelectAppend` | extractor/filesystem/embeddedfs/ova/ova.go:84-115 | The result for a concatenated list of headers is the concatenation of the results for its parts. |
| `OvaProperties.NoDeduplication` | extractor/filesystem/embeddedfs/ova/ova.go:110-114 | An archive that lists its headers twice gets every package twice: nothing is deduplicated. |
| `OvaProperties.SingleDiskImageArchive` | extractor/filesystem/embeddedfs/ova/ova.go:110-114 | An accepted archive at a plain path, with one regular entry whose plain name is a disk image, gives exactly one package located at `path/name`. |
| `OvaProperties.TestDiskNames` | extractor/filesystem/embeddedfs/ova/ova_test.go:95-101 | `test-disk` followed by each disk-image suffix is a plain disk-image name. |
| `OvaProperties.ExtractionTestCases` | extractor/filesystem/embeddedfs/ova/ova_test.go:88-144 | For each of the seven suffixes, `test.ova` holding the single regular file `test-disk<suffix>` gives one package, located at `test.ova/test-disk<suffix>`. |
| `OvaProperties.InvalidFileCases` | extractor/filesystem/embeddedfs/ova/ova_test.go:146-174 | `test.txt` and `test.ovf` give nothing whatever their content. A `test.ova` shorter than 262 bytes gives nothing and no error. |
| `OvaProperties.TraversalIsKept` | extractor/filesystem/embeddedfs/ova/ova.go:98-113 | An entry `../../name` of an archive at the plain path `dir` is located at `../name`. Cleaning does not confine it to the archive. |
| `OvaProperties.TraversalExample` | extractor/filesystem/embeddedfs/ova/ova.go:113 | `Join("test.ova", Clean("../../escape.vmdk"))` is `../escape.vmdk`. |
| `GoFilepath.CleanPlainName` | extractor/filesystem/embeddedfs/ova/ova.go:98 | Cleaning a single non-empty element other than `.` and `..` leaves it unchanged. |
| `GoFilepath.JoinPlainNames` | extractor/filesystem/embeddedfs/ova/ova.go:113 | Joining two such elements puts exactly one `/` between them. |
| `GoFilepath.CleanIdempotent` | extractor/filesystem/embeddedfs/ova/ova.go:98 | It characterises `GoFilepath.Clean`: a cleaned path is already clean, whether it is empty, rooted or relative. |
| `GoFilepath.ResolveIsResolved` | extractor/filesystem/embeddedfs/ova/ova.go:98 | The lexical resolution inside `Clean` leaves no empty and no `.` element, puts every `..` before every name, keeps no `..` in a rooted path, and adds no separator inside an element. |
| `GoFilepath.ResolveResolved` | extractor/filesystem/embeddedfs/ova/ova.go:98 | Resolving a list already in that shape leaves it unchanged. |
| `GoFilepath.SplitFrom` | extractor/filesystem/embeddedfs/ova/ova.go:98 | Splitting on `/` gives at least one element, and joining the elements with `/` gives back the input that was split. |
| `GoFilepath.JoinSplit` | extractor/filesystem/embeddedfs/ova/ova.go:98 | Joining with `/` the elements that splitting on `/` produces gives back the path. |
| `GoFilepath.SplitJoin` | extractor/filesystem/embeddedfs/ova/ova.go:98 | Splitting on `/` a join of a non-empty list of separator-free elements gives back the list. |
| `Tar.Reader.constructor` | extractor/filesystem/embeddedfs/ova/ova.go:83 | A new reader stands before the first header of the stream. |
| `Tar.Reader.Next` | extractor/filesystem/embeddedfs/ova/ova.go:85-92 | `Next` yields the next header and advances. At the end it stays put and yields EOF, or the walk's error, every time. |

## Left out

- The internals of `archive/tar` (header decoding, checksums, skipping entry bodies, and
  the library's mapping of the old regular-file flag to `TypeReg`). The headers and the
  way a walk ends are the parameter `tarStream`, standing for that foreign library.
- `io.ReadAll` and the `io.Reader` input. Reading is I/O. Its outcome is a `ReadResult`
  value. "The content is never read for a non-`.ova` path" is stated as: the result does
  not depend on the content or on the tar stream (`OvaProperties.NotOvaGivesNothing`).
- The context argument and cancellation. `Extract` never consults its context.
- `New`, `NewDefault`, `Name`, `Version` and `Requirements`. They return constants.
- The inventory and package types beyond the three fields the extractor sets. Also the
  difference between a nil and an empty package slice, which the tests do not observe.
- GoStrings.ToLower: maps the ASCII letters only. Go's `strings.ToLower` follows
  Unicode, where for example the Kelvin sign (U+212A) lower-cases to `k`. So a name
  ending in `.vmd` and a Kelvin sign is a disk image to the source but not to the model.
- Strings are sequences of characters. The UTF-8 byte view of Go strings, and its
  handling of invalid encodings, is not modelled.
- GoFilepath.Clean: models the '/'-separated form only. Windows volume names and '\\'
  separators of `path/filepath` on Windows are not modelled.
- Determinism of repeated scans needs no lemma. `Scan` is a function, and `Extract`
  returns its value.

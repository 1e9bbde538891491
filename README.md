# pics-converter-wasm, simple variant: a Dafny model

`main.go` is a Go program compiled to WebAssembly. It registers one function, `Convert`, for the
page. The page passes three things:

- a size argument;
- a count argument;
- a list of files, each with base64 PNG data and a file name.

`Convert` checks that both arguments are integers. For each file it does four things:

1. decodes the base64 text, then the PNG;
2. paints every fully transparent pixel white (`fillTransparentWhite`);
3. encodes the result as a JPEG;
4. keeps the file name without its extension.

The JPEGs are then packed into a zip archive (`createZip`), one entry per file named
`<stem>.jpg`, in input order. The archive is offered for download as `archive.zip`.

A failure that `Convert` checks for writes one of six Japanese messages on the page and stops
the call. The exception is a count larger than the number of files: the Go runtime panics when
it reads the missing entry, and no message is written. In every case the whole archive is
offered or none of it is.

The model has six modules:

- `Base` holds the byte type and the Option and Result types.
- `Raster` models the image. It has a value `Image`, which mirrors Go's `image.Image` (bounds and
  `At`), and a class `RGBA` over a two-dimensional array, which mirrors `image.RGBA`.
  `FillTransparentWhite` is the source's nested loop, proved against the pure function `Composite`.
- `FilePath` holds `filepath.Ext`, `strings.HasSuffix`, `strings.TrimSuffix` and the stem built
  from them.
- `Decimal` holds `strconv.Atoi` and the 64-bit wrap-around of Go's `int` on js/wasm.
- `Archive` models the zip library's writer as the class `ZipWriter`. The archive is the sequence
  of its (name, bytes) entries. `CreateZip` is the source's loop over it.
- `Converter` holds `Convert`. The method is split into three parts: the loop body
  (`ConvertFile`), the loop (`CollectImages`) and the whole call. The ghost function `ConvertSpec`
  gives the outcome of the whole call. The lemmas about `ConvertSpec` state the all-or-nothing
  policy, the fail-fast order of the alerts, and what the archive contains.

The codec library calls are fields of the `Codecs` value and are not interpreted. They are
`base64.StdEncoding.DecodeString`, `png.Decode` and `jpeg.Encode`. The same holds for whether the
zip writer's `Create`, `Write` and `Close` succeed: these are fields of `ZipLibrary`. A call ends
in one of three ways, as an `Outcome`:

- `Alerted`: the message is shown;
- `Downloaded`: the archive is offered, with its name and MIME type;
- `IndexOutOfRange`: the Go runtime panics because `args[i]` is read past the end of `args`.

Three details of the code are worth knowing.

- `createZip` does not check for duplicate names. Two files with the same stem, such as `a.png`
  and `a.webp`, give two entries named `a.jpg`. The model keeps them both, and
  `ZipLibrary.createOk` alone decides whether `Create` fails.
- This variant has no resize step and no quality setting. The size argument is parsed and its
  value discarded (`SizeValueIgnored`), and the encoder's default quality is used.
- The loop bound `2+fileCount` is computed in 64-bit arithmetic. A count of MaxInt64 or
  MaxInt64 - 1 wraps the bound around, so the loop never runs and an empty archive is offered
  (`HugeCountGivesEmptyArchive`). A negative count does the same.

## Model

| member | source | states |
|---|---|---|
| Raster.OntoWhite | main.go:85-94 | a fully transparent pixel becomes opaque white (255, 255, 255, 255), any pixel whose alpha is not zero is kept unchanged, and the result is never fully transparent |
| Raster.Composite | main.go:81-98 | the result has the input's bounds and no fully transparent pixel inside them |
| Raster.CompositeAt | main.go:85-94 | inside the bounds, each pixel of the result is the input pixel after the white-if-transparent rule, so every fully transparent input pixel becomes opaque white |
| Raster.CompositeKeepsOpaque | main.go:87-96 | an image with no fully transparent pixel comes back unchanged |
| Raster.CompositeIdempotent | main.go:81-98 | filling a filled image again changes nothing |
| Raster.CompositeChangesOnlyClearPixels | main.go:89-94 | a pixel stays the same exactly when its alpha is not zero |
| Raster.RGBA.constructor | main.go:83 | `image.NewRGBA(bounds)`: a fresh raster over those bounds, all pixels transparent black |
| Raster.RGBA.Set | main.go:91-93 | sets the pixel at (x, y) when it lies inside the bounds, does nothing outside them, and leaves every other pixel alone |
| Raster.RGBA.Snapshot | main.go:97 | the image returned has the raster's bounds and the same pixel at every point |
| Raster.FillTransparentWhite | main.go:81-98 | returns a fresh raster with the input's bounds whose pixels are exactly `Composite` of the input |
| FilePath.HasSuffixIff | main.go:67 | `strings.HasSuffix` holds exactly when the last characters of the string are the suffix |
| FilePath.ExtStart | main.go:66 | finds the last '.' after the last '/', with no '.' or '/' after it, or reports that every '.' has a later '/' |
| FilePath.ExtShape | main.go:66 | the name ends with its extension, and a non-empty extension is a '.' followed by no '.' and no '/' |
| FilePath.ExtEmptyIff | main.go:66 | the extension is empty exactly when every '.' in the name has a '/' after it |
| FilePath.TrimSuffixSpec | main.go:67 | with the suffix present, the result followed by the suffix is the input; without it, the input is returned unchanged |
| FilePath.StemExtRoundTrip | main.go:65-67 | the stem followed by the extension is the whole file name |
| FilePath.StemUnchangedIff | main.go:65-67 | the stem is the whole name exactly when the name has no extension dot |
| FilePath.StemCutsAtLastDot | main.go:65-67 | a name with an extension is cut at a '.' after which there is no '.' and no '/' |
| FilePath.StemKeepsEarlierDots | main.go:66-67 | only the last extension is removed: "archive.tar.gz" becomes "archive.tar" |
| FilePath.StemOfDotName | main.go:66-67 | ".png" has an empty stem |
| FilePath.StemIgnoresDirectoryDot | main.go:66-67 | a dot in a directory part is no extension: "shots.v2/photo" is kept whole |
| Decimal.Wrap64 | main.go:44 | the result is a 64-bit integer that equals the input modulo 2^64 |
| Decimal.Wrap64Cases | main.go:44 | an in-range sum is unchanged, and a sum just above MaxInt64 wraps to the sum minus 2^64 |
| Decimal.Atoi | main.go:28 | an accepted string is an optional sign followed only by digits, and its value fits in 64 bits |
| Decimal.AtoiItoa | main.go:36 | every 64-bit integer is read back from its decimal form |
| Decimal.AtoiIgnoresPlusAndZeros | main.go:36 | a leading '+' or a leading zero does not change the value read |
| Decimal.AtoiRejectsEmpty | main.go:36-40 | the empty string, "+" and "-" are rejected |
| Decimal.AtoiRejectsOutOfRange | main.go:36-40 | the decimal form of a number outside the 64-bit range is rejected |
| Archive.EntryNameInjective | main.go:110 | two entries get the same `<name>.jpg` exactly when their stems are equal |
| Archive.ZippedShape | main.go:105-127 | a written archive has one entry per image, in order, named `<FileName>.jpg` and holding that image's bytes |
| Archive.ZipWriter.constructor | main.go:107 | a new writer is open and empty |
| Archive.ZipWriter.Create | main.go:111 | on success a new empty entry with that name is appended; on failure the entries stay as they were |
| Archive.ZipWriter.Write | main.go:116 | on success the bytes are appended to the last entry; nothing else changes |
| Archive.ZipWriter.Close | main.go:122 | the writer is closed, its entries are unchanged, and the result is the library's verdict on them |
| Archive.CreateZip | main.go:105-127 | returns the archive of all entries when every `Create`, `Write` and the `Close` succeed, and nothing otherwise |
| Converter.MessagesDistinct | main.go:31-72 | each alert category shows its own message |
| Converter.IterationsCases | main.go:44 | the loop runs `fileCount` times for 0 to MaxInt64 - 2, and never for a negative count or the two largest ones |
| Converter.Collect | main.go:42-68 | a loop that stops early stops with an alert or with the index panic, and with nothing else |
| Converter.CollectSucceedsIff | main.go:44-68 | the loop completes exactly when every entry it visits exists and converts |
| Converter.CollectContents | main.go:42-68 | after a completed loop the list has one image per pass, in input order, each the conversion of its entry |
| Converter.CollectStopsAtFirstFailure | main.go:44-68 | the first entry that is missing or fails decides the outcome, whatever follows it |
| Converter.CollectedArchive | main.go:42-76 | the archive packed from a completed loop has one entry per pass, in order, named after that entry's `FileName` with ".jpg" and holding its JPEG |
| Converter.ArchiveOfConvertedEntries | main.go:65-67 | such an archive's entry k is named after the stem of file k and holds the JPEG that file converts to |
| Converter.ConvertEntryName | main.go:65-67 | a converted entry is named after the stem of its file name |
| Converter.CollectStep | main.go:45-67 | one pass either ends the loop with that entry's alert or appends that entry's image |
| Converter.CollectFailurePersists | main.go:44-68 | once a pass has failed, later passes do not change the outcome |
| Converter.ConvertSpecAfterParse | main.go:42-74 | once both arguments parse, the loop decides the outcome, and after it the archive does |
| Converter.DownloadedMeansAllConverted | main.go:25-78 | a download means both arguments parsed and every counted entry exists and converted; the archive `archive.zip` (application/zip) then holds `<stem>.jpg` with that entry's JPEG, one per entry, in order |
| Converter.AllConvertedMeansDownloaded | main.go:25-78 | when both arguments parse, every counted entry exists and converts, and the library writes and closes the entries of the converted images, exactly that archive is offered as `archive.zip` |
| Converter.FailuresAlert | main.go:27-74 | a bad size alerts first, then a bad count, then the first entry that is missing or fails |
| Converter.SizeValueIgnored | main.go:27-33 | any two parsable size arguments give the same outcome |
| Converter.ZeroCountGivesEmptyArchive | main.go:35-76 | a count of "0" offers an empty archive when the library can close one |
| Converter.HugeCountGivesEmptyArchive | main.go:44 | a count above MaxInt64 - 2 offers an empty archive, whatever files were passed |
| Converter.ConvertFile | main.go:45-67 | one pass of the loop body gives the alert of the first step that fails, or the JPEG of the white-filled image under the file's stem |
| Converter.CollectImages | main.go:42-68 | the loop gives the list `Collect` describes for the 64-bit loop bound, or the outcome that stopped it |
| Converter.Convert | main.go:25-78 | the whole call ends as `ConvertSpec` says |

## Left out

- `SizeReduction` (main.go:100-103) returns nil and is never called, so it is not modelled.
- The base64, PNG and JPEG codecs are not modelled. They are uninterpreted functions of the
  `Codecs` value, and a failure is `None`.
- The zip byte format (headers, deflate, the central directory) is not modelled. The archive is
  the sequence of entries that were written. Whether `Create`, `Write` and `Close` succeed is
  given by the functions of `ZipLibrary`.
- Go's colour models are not modelled. `img.At(x, y).RGBA()` gives 16-bit premultiplied channels,
  and `image.RGBA.Set` converts the colour it gets into 8-bit premultiplied RGBA. The model has
  one 8-bit RGBA colour. For a PNG with 8-bit channels the alpha test does not depend on this,
  because its 16-bit alpha is zero exactly when the 8-bit one is.
- Raster.Composite: the model's pixels are 8-bit, so a PNG with 16-bit channels is not modelled.
  In such an image a pixel whose 16-bit alpha is between 1 and 255 passes the test at main.go:90
  as not transparent. It is copied at main.go:93, and `Set` keeps only the top 8 bits of its
  alpha, which are zero. Go's result then holds a fully transparent pixel there, while `Composite`
  promises there is none.
- Raster.FillTransparentWhite: the result is the input's pixels as the model stores them. It
  does not model the premultiplication `Set` applies to a partly transparent pixel of a
  non-premultiplied PNG.
- `printAlert`, `attachData` and `main` (main.go:129-149) use the browser's DOM and a Go channel,
  so they are not modelled. An alert is the `Alerted` outcome. The download is the `Downloaded`
  outcome, with name `archive.zip` and MIME type `application/zip`. The base64 data URI is not
  modelled.
- `fmt.Println(err)` at main.go:30 writes to the console and is not modelled.
- The arguments are taken as strings. `js.Value.String()` is not modelled: for a value that is
  not a string it gives text such as `<number: 5>`, which `strconv.Atoi` then rejects. A call
  with fewer than two arguments is not modelled, because `Request` always holds both. Such a
  call panics when it reads the missing argument, unless it has exactly one argument and that
  one is not an integer: then it alerts about the size first (main.go:27-32) and returns.
- Strings are sequences of characters, not of UTF-8 bytes. `filepath.Ext` and `strings.TrimSuffix`
  give the same cut either way, because '.' and '/' are single bytes.

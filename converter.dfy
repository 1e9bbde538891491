/**
 * `Convert` in main.go: the entry point the page calls. It checks that the
 * size and count arguments are integers, converts each PNG entry to a JPEG
 * (base64 decode, PNG decode, `fillTransparentWhite`, JPEG encode), keeps
 * the stem of each file name, and hands the list to `createZip`. Any failure
 * shows an alert and returns at once: either the whole archive is offered
 * for download or none of it is.
 */
module Converter {
  import opened Base
  import opened Raster
  import opened FilePath
  import opened Decimal
  import opened Archive

  /** One file entry of the call: `args[i].Get("base64")` and `args[i].Get("fileName")`, as strings. */
  datatype FileArg = FileArg(base64: string, fileName: string)

  /** The call's arguments: `args[0].String()`, `args[1].String()`, and `args[2:]`. */
  datatype Request = Request(sizeArg: string, countArg: string, files: seq<FileArg>)

  /** The codec library calls, which the model leaves uninterpreted. */
  datatype Codecs = Codecs(
    decodeBase64: string -> Option<seq<byte>>,   // base64.StdEncoding.DecodeString
    decodePng: seq<byte> -> Option<Image>,       // png.Decode
    encodeJpeg: Image -> Option<seq<byte>>)      // jpeg.Encode with default options

  /** One category per alert `Convert` can raise. */
  datatype Alert =
    | InvalidSize
    | CountUnavailable
    | PngDataUnavailable
    | PngDecodeFailed
    | JpegEncodeFailed
    | ZipFailed

  /** The text `printAlert` puts on the page for each category. */
  function Message(a: Alert): string
  {
    match a
    case InvalidSize => "指定された縮小サイズが不正です"
    case CountUnavailable => "添付されたファイルカウントの取得に失敗しました"
    case PngDataUnavailable => "添付されたPNGデータの取得に失敗しました"
    case PngDecodeFailed => "PNGデータのデコードに失敗しました"
    case JpegEncodeFailed => "JPGデータへのエンコードに失敗しました"
    case ZipFailed => "zipファイル作成中にエラーが発生しました"
  }

  /** Every category has its own message. */
  lemma MessagesDistinct(a: Alert, b: Alert)
    ensures Message(a) == Message(b) <==> a == b
  {
    if a != b {
      assert Message(a)[..5] != Message(b)[..5] || Message(a)[5..] != Message(b)[5..];
    }
  }

  /**
   * How a call ends: an alert, the archive offered for download (`attachData`
   * with "archive" + ".zip"), or a Go runtime panic when the count asks for
   * more entries than `args` holds.
   */
  datatype Outcome =
    | Alerted(alert: Alert)
    | Downloaded(archive: seq<ZipEntry>, downloadName: string, mimeType: string)
    | IndexOutOfRange

  const DownloadName: string := "archive" + ".zip"
  const ZipMimeType: string := "application/zip"

  /** How many times `for i := 2; i < 2+fileCount; i++` runs, with `2+fileCount` computed in 64 bits. */
  function Iterations(fileCount: int): nat
  {
    var end := Wrap64(2 + fileCount);
    if end > 2 then end - 2 else 0
  }

  /**
   * The loop runs `fileCount` times for a count from 0 to MaxInt64 - 2, never
   * for a negative count, and never for the two largest counts, where
   * `2+fileCount` wraps around to a negative bound.
   */
  lemma IterationsCases(fileCount: int)
    requires IsInt64(fileCount)
    ensures 0 <= fileCount <= MaxInt64 - 2 ==> Iterations(fileCount) == fileCount
    ensures fileCount < 0 ==> Iterations(fileCount) == 0
    ensures fileCount > MaxInt64 - 2 ==> Iterations(fileCount) == 0
  {
    Wrap64Cases(2 + fileCount);
  }

  /** One pass of the loop body on one entry, from base64 text to a `JPGImg`. */
  function ConvertEntry(f: FileArg, codecs: Codecs): Result<JPGImg, Alert>
  {
    match codecs.decodeBase64(f.base64)
    case None => Failure(PngDataUnavailable)
    case Some(pngBytes) =>
      match codecs.decodePng(pngBytes)
      case None => Failure(PngDecodeFailed)
      case Some(img) =>
        match codecs.encodeJpeg(Composite(img))
        case None => Failure(JpegEncodeFailed)
        case Some(jpg) => Success(JPGImg(Stem(f.fileName), jpg))
  }

  /** A converted entry is named after the stem of its file name. */
  lemma ConvertEntryName(f: FileArg, codecs: Codecs)
    ensures ConvertEntry(f, codecs).Success? ==> ConvertEntry(f, codecs).value.fileName == Stem(f.fileName)
  {
  }

  /** The loop body as a conversion of one entry, the form in which the batch lemmas below take it. */
  function EntryConverter(codecs: Codecs): FileArg -> Result<JPGImg, Alert>
  {
    f => ConvertEntry(f, codecs)
  }

  /** How the loop body ends on entry k: None when it appends an image, otherwise the call's outcome. */
  function StepFailure(files: seq<FileArg>, k: nat, convert: FileArg -> Result<JPGImg, Alert>): Option<Outcome>
  {
    if k >= |files| then Some(IndexOutOfRange)
    else match convert(files[k])
      case Failure(a) => Some(Alerted(a))
      case Success(_) => None
  }

  /** The `JPGImgs` list after the first n passes of the loop, or how the call ended during them. */
  function Collect(files: seq<FileArg>, n: nat, convert: FileArg -> Result<JPGImg, Alert>): (r: Result<seq<JPGImg>, Outcome>)
    ensures r.Failure? ==> r.error.Alerted? || r.error.IndexOutOfRange?
  {
    if n == 0 then Success([])
    else match Collect(files, n - 1, convert)
      case Failure(o) => Failure(o)
      case Success(imgs) =>
        match StepFailure(files, n - 1, convert)
        case Some(o) => Failure(o)
        case None => Success(imgs + [convert(files[n - 1]).value])
  }

  /** The whole of `Convert`, as a function of its arguments and of what the libraries do. */
  ghost function ConvertSpec(req: Request, codecs: Codecs, zip: ZipLibrary): Outcome
  {
    match Atoi(req.sizeArg)
    case None => Alerted(InvalidSize)
    case Some(_) =>
      match Atoi(req.countArg)
      case None => Alerted(CountUnavailable)
      case Some(fileCount) =>
        match Collect(req.files, Iterations(fileCount), EntryConverter(codecs))
        case Failure(o) => o
        case Success(imgs) =>
          match Zipped(imgs, zip)
          case None => Alerted(ZipFailed)
          case Some(archive) => Downloaded(archive, DownloadName, ZipMimeType)
  }

  /** The n passes all succeed exactly when every one of the first n entries exists and converts. */
  lemma {:induction false} CollectSucceedsIff(files: seq<FileArg>, n: nat, convert: FileArg -> Result<JPGImg, Alert>)
    ensures Collect(files, n, convert).Success? <==> forall k :: 0 <= k < n ==> StepFailure(files, k, convert).None?
  {
    if n > 0 {
      CollectSucceedsIff(files, n - 1, convert);
    }
  }

  /** After n successful passes the list holds the n converted images, in input order. */
  lemma {:induction false} CollectContents(files: seq<FileArg>, n: nat, convert: FileArg -> Result<JPGImg, Alert>)
    requires Collect(files, n, convert).Success?
    ensures n <= |files|
    ensures |Collect(files, n, convert).value| == n
    ensures forall k :: 0 <= k < n ==>
      convert(files[k]).Success? && Collect(files, n, convert).value[k] == convert(files[k]).value
  {
    if n > 0 {
      CollectContents(files, n - 1, convert);
    }
  }

  /** Fail-fast: the first entry whose pass fails decides the outcome, whatever follows it. */
  lemma {:induction false} CollectStopsAtFirstFailure(files: seq<FileArg>, n: nat, k: nat, convert: FileArg -> Result<JPGImg, Alert>)
    requires k < n
    requires forall j :: 0 <= j < k ==> StepFailure(files, j, convert).None?
    requires StepFailure(files, k, convert).Some?
    ensures Collect(files, n, convert) == Failure(StepFailure(files, k, convert).value)
  {
    if n == k + 1 {
      CollectSucceedsIff(files, k, convert);
    } else {
      CollectStopsAtFirstFailure(files, n - 1, k, convert);
    }
  }

  /** One more pass: a failure ends the loop with that entry's outcome, a success appends its image. */
  lemma CollectStep(files: seq<FileArg>, k: nat, convert: FileArg -> Result<JPGImg, Alert>, imgs: seq<JPGImg>)
    requires Collect(files, k, convert) == Success(imgs)
    requires k < |files|
    ensures convert(files[k]).Failure? ==> Collect(files, k + 1, convert) == Failure(Alerted(convert(files[k]).error))
    ensures convert(files[k]).Success? ==> Collect(files, k + 1, convert) == Success(imgs + [convert(files[k]).value])
  {
  }

  /** Once a pass has failed, later passes never run: the outcome stays the same. */
  lemma {:induction false} CollectFailurePersists(files: seq<FileArg>, k: nat, n: nat, convert: FileArg -> Result<JPGImg, Alert>)
    requires k <= n
    requires Collect(files, k, convert).Failure?
    ensures Collect(files, n, convert) == Collect(files, k, convert)
    decreases n - k
  {
    if k < n {
      CollectFailurePersists(files, k, n - 1, convert);
    }
  }

  /**
   * All or nothing: the archive is offered only when both arguments parse,
   * every entry the count asks for exists and converts, and the archive is
   * written. It then holds one entry per file, in input order, named after
   * the file's stem with ".jpg" appended.
   */
  lemma DownloadedMeansAllConverted(req: Request, codecs: Codecs, zip: ZipLibrary)
    requires ConvertSpec(req, codecs, zip).Downloaded?
    ensures Atoi(req.sizeArg).Some? && Atoi(req.countArg).Some?
    ensures var n := Iterations(Atoi(req.countArg).value);
      var out := ConvertSpec(req, codecs, zip);
      && n <= |req.files|
      && out.downloadName == "archive.zip" && out.mimeType == "application/zip"
      && |out.archive| == n
      && forall k :: 0 <= k < n ==>
        && ConvertEntry(req.files[k], codecs).Success?
        && out.archive[k].name == Stem(req.files[k].fileName) + ".jpg"
        && out.archive[k].data == ConvertEntry(req.files[k], codecs).value.img
  {
    var fileCount := Atoi(req.countArg).value;
    ConvertSpecAfterParse(req, codecs, zip, fileCount);
    var n := Iterations(fileCount);
    var convert := EntryConverter(codecs);
    var c := Collect(req.files, n, convert);
    assert c.Success? && Zipped(c.value, zip).Some?;
    var archive := Zipped(c.value, zip).value;
    CollectedArchive(req.files, n, convert, zip);
    ArchiveOfConvertedEntries(req.files, n, codecs, archive);
  }

  /** An archive built from the loop's images, restated in terms of each entry's conversion and stem. */
  lemma ArchiveOfConvertedEntries(files: seq<FileArg>, n: nat, codecs: Codecs, archive: seq<ZipEntry>)
    requires n <= |files| && |archive| == n
    requires forall k :: 0 <= k < n ==>
      && EntryConverter(codecs)(files[k]).Success?
      && archive[k].name == EntryConverter(codecs)(files[k]).value.fileName + ".jpg"
      && archive[k].data == EntryConverter(codecs)(files[k]).value.img
    ensures forall k :: 0 <= k < n ==>
      && ConvertEntry(files[k], codecs).Success?
      && archive[k].name == Stem(files[k].fileName) + ".jpg"
      && archive[k].data == ConvertEntry(files[k], codecs).value.img
  {
    forall k | 0 <= k < n
      ensures ConvertEntry(files[k], codecs).Success?
      ensures archive[k].name == Stem(files[k].fileName) + ".jpg"
      ensures archive[k].data == ConvertEntry(files[k], codecs).value.img
    {
      assert EntryConverter(codecs)(files[k]) == ConvertEntry(files[k], codecs);
      ConvertEntryName(files[k], codecs);
    }
  }

  /** The archive a completed loop is packed into: one entry per converted entry, in order. */
  lemma CollectedArchive(files: seq<FileArg>, n: nat, convert: FileArg -> Result<JPGImg, Alert>, zip: ZipLibrary)
    requires Collect(files, n, convert).Success?
    requires Zipped(Collect(files, n, convert).value, zip).Some?
    ensures var archive := Zipped(Collect(files, n, convert).value, zip).value;
      && n <= |files|
      && |archive| == n
      && forall k :: 0 <= k < n ==>
        && convert(files[k]).Success?
        && archive[k].name == convert(files[k]).value.fileName + ".jpg"
        && archive[k].data == convert(files[k]).value.img
  {
    CollectContents(files, n, convert);
    ZippedShape(Collect(files, n, convert).value, zip);
  }

  /** The images of the first n entries, each converted on its own. */
  function ConvertedImages(files: seq<FileArg>, n: nat, codecs: Codecs): seq<JPGImg>
    requires n <= |files|
    requires forall k :: 0 <= k < n ==> ConvertEntry(files[k], codecs).Success?
  {
    seq(n, k requires 0 <= k < n => ConvertEntry(files[k], codecs).value)
  }

  /**
   * Conversely, when both arguments parse, every counted entry exists and
   * converts, and the library writes and closes the archive of the converted
   * images, that archive is offered.
   */
  lemma AllConvertedMeansDownloaded(req: Request, codecs: Codecs, zip: ZipLibrary, fileCount: int)
    requires Atoi(req.sizeArg).Some? && Atoi(req.countArg) == Some(fileCount)
    requires Iterations(fileCount) <= |req.files|
    requires forall k :: 0 <= k < Iterations(fileCount) ==> ConvertEntry(req.files[k], codecs).Success?
    requires AllWritten(ConvertedImages(req.files, Iterations(fileCount), codecs), zip)
    requires zip.closeOk(Entries(ConvertedImages(req.files, Iterations(fileCount), codecs)))
    ensures ConvertSpec(req, codecs, zip) == Downloaded(Entries(ConvertedImages(req.files, Iterations(fileCount), codecs)), DownloadName, ZipMimeType)
  {
    var n := Iterations(fileCount);
    var convert := EntryConverter(codecs);
    forall k | 0 <= k < n
      ensures StepFailure(req.files, k, convert).None?
    {
      assert convert(req.files[k]).Success?;
    }
    CollectSucceedsIff(req.files, n, convert);
    CollectContents(req.files, n, convert);
    var imgs := ConvertedImages(req.files, n, codecs);
    assert Collect(req.files, n, convert).value == imgs;
    ConvertSpecAfterParse(req, codecs, zip, fileCount);
  }

  /**
   * Every failure is terminal: a bad size argument alerts first, then a bad
   * count argument, then the first entry that fails (or the first missing
   * one, which panics). A failure to write the archive comes after all of
   * these; `ConvertSpecAfterParse` states it.
   */
  lemma FailuresAlert(req: Request, codecs: Codecs, zip: ZipLibrary)
    ensures Atoi(req.sizeArg).None? ==> ConvertSpec(req, codecs, zip) == Alerted(InvalidSize)
    ensures Atoi(req.sizeArg).Some? && Atoi(req.countArg).None? ==> ConvertSpec(req, codecs, zip) == Alerted(CountUnavailable)
    ensures forall k: nat :: (Atoi(req.sizeArg).Some? && Atoi(req.countArg).Some? &&
      k < Iterations(Atoi(req.countArg).value) &&
      (forall j :: 0 <= j < k ==> StepFailure(req.files, j, EntryConverter(codecs)).None?) &&
      StepFailure(req.files, k, EntryConverter(codecs)).Some?) ==>
        ConvertSpec(req, codecs, zip) == StepFailure(req.files, k, EntryConverter(codecs)).value
  {
    var convert := EntryConverter(codecs);
    forall k: nat | Atoi(req.sizeArg).Some? && Atoi(req.countArg).Some? &&
      k < Iterations(Atoi(req.countArg).value) &&
      (forall j :: 0 <= j < k ==> StepFailure(req.files, j, convert).None?) &&
      StepFailure(req.files, k, convert).Some?
      ensures ConvertSpec(req, codecs, zip) == StepFailure(req.files, k, convert).value
    {
      CollectStopsAtFirstFailure(req.files, Iterations(Atoi(req.countArg).value), k, convert);
    }
  }

  /** The size argument is checked and then discarded: its value never changes the outcome. */
  lemma SizeValueIgnored(req: Request, size: string, codecs: Codecs, zip: ZipLibrary)
    requires Atoi(req.sizeArg).Some? && Atoi(size).Some?
    ensures ConvertSpec(req.(sizeArg := size), codecs, zip) == ConvertSpec(req, codecs, zip)
  {
  }

  /** A count of 0 converts nothing and offers an empty archive, if the library can close one. */
  lemma ZeroCountGivesEmptyArchive(req: Request, codecs: Codecs, zip: ZipLibrary)
    requires Atoi(req.sizeArg).Some? && req.countArg == "0"
    requires zip.closeOk([])
    ensures ConvertSpec(req, codecs, zip) == Downloaded([], "archive.zip", "application/zip")
  {
    assert Atoi("0") == Some(0);
    assert Entries([]) == [];
  }

  /**
   * The two largest counts wrap the loop bound `2+fileCount` around: the loop
   * does not run, and an empty archive is offered although no file was given.
   */
  lemma HugeCountGivesEmptyArchive(req: Request, codecs: Codecs, zip: ZipLibrary, fileCount: int)
    requires Atoi(req.sizeArg).Some? && Atoi(req.countArg) == Some(fileCount)
    requires fileCount > MaxInt64 - 2
    requires zip.closeOk([])
    ensures ConvertSpec(req, codecs, zip) == Downloaded([], "archive.zip", "application/zip")
  {
    IterationsCases(fileCount);
    assert Entries([]) == [];
  }

  /** Once both arguments parse, the outcome is decided by the loop and, after it, by the archive. */
  lemma ConvertSpecAfterParse(req: Request, codecs: Codecs, zip: ZipLibrary, fileCount: int)
    requires Atoi(req.sizeArg).Some? && Atoi(req.countArg) == Some(fileCount)
    ensures var c := Collect(req.files, Iterations(fileCount), EntryConverter(codecs));
      ConvertSpec(req, codecs, zip) ==
        if c.Failure? then c.error
        else if Zipped(c.value, zip).None? then Alerted(ZipFailed)
        else Downloaded(Zipped(c.value, zip).value, DownloadName, ZipMimeType)
  {
  }

  /**
   * The body of `Convert`'s loop for one entry: base64 decode, PNG decode,
   * `fillTransparentWhite`, JPEG encode, and the stem of the file name.
   * It returns the alert to raise instead of raising it.
   */
  method ConvertFile(f: FileArg, codecs: Codecs) returns (r: Result<JPGImg, Alert>)
    ensures r == ConvertEntry(f, codecs)
  {
    var pngBytes := codecs.decodeBase64(f.base64);
    if pngBytes.None? {
      return Failure(PngDataUnavailable);
    }
    var img := codecs.decodePng(pngBytes.value);
    if img.None? {
      return Failure(PngDecodeFailed);
    }
    var imgWithWhite := FillTransparentWhite(img.value);
    var jpg := codecs.encodeJpeg(imgWithWhite.Snapshot());
    if jpg.None? {
      return Failure(JpegEncodeFailed);
    }
    var fileName := f.fileName;
    var ext := Ext(fileName);
    return Success(JPGImg(TrimSuffix(fileName, ext), jpg.value));
  }

  /**
   * The loop of `Convert`: `for i := 2; i < 2+fileCount; i++`, appending one
   * `JPGImg` per entry to `JPGImgs` and stopping at the first entry that is
   * missing or fails, with the outcome the call then ends with.
   */
  method CollectImages(files: seq<FileArg>, fileCount: int, codecs: Codecs) returns (r: Result<seq<JPGImg>, Outcome>)
    requires IsInt64(fileCount)
    ensures r == Collect(files, Iterations(fileCount), EntryConverter(codecs))
  {
    ghost var n := Iterations(fileCount);
    ghost var convert := EntryConverter(codecs);
    var jpgImgs: seq<JPGImg> := [];
    var end := Wrap64(2 + fileCount);
    var i := 2;
    while i < end
      invariant 2 <= i && (end <= 2 ==> i == 2) && (end > 2 ==> i <= end)
      invariant Collect(files, i - 2, convert) == Success(jpgImgs)
    {
      if i - 2 >= |files| {
        CollectFailurePersists(files, i - 1, n, convert);
        return Failure(IndexOutOfRange);
      }
      var converted := ConvertFile(files[i - 2], codecs);
      CollectStep(files, i - 2, convert, jpgImgs);
      if converted.Failure? {
        CollectFailurePersists(files, i - 1, n, convert);
        return Failure(Alerted(converted.error));
      }
      jpgImgs := jpgImgs + [converted.value];
      i := i + 1;
    }
    return Success(jpgImgs);
  }

  /** `Convert`: parse the two arguments, run the loop, build the archive and offer it, alerting on any failure. */
  method Convert(req: Request, codecs: Codecs, zip: ZipLibrary) returns (outcome: Outcome)
    ensures outcome == ConvertSpec(req, codecs, zip)
  {
    var size := Atoi(req.sizeArg);
    if size.None? {
      return Alerted(InvalidSize);
    }
    var count := Atoi(req.countArg);
    if count.None? {
      return Alerted(CountUnavailable);
    }
    var fileCount := count.value;
    ConvertSpecAfterParse(req, codecs, zip, fileCount);
    var jpgImgs := CollectImages(req.files, fileCount, codecs);
    if jpgImgs.Failure? {
      return jpgImgs.error;
    }
    var archive := CreateZip(jpgImgs.value, zip);
    if archive.None? {
      return Alerted(ZipFailed);
    }
    outcome := Downloaded(archive.value, DownloadName, ZipMimeType);
  }
}

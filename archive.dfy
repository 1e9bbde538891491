/**
 * `createZip` in main.go: one archive entry per converted image, named after
 * the image with ".jpg" appended, in the order of the images. The ZIP byte
 * layout and deflate compression belong to Go's archive/zip; here an archive
 * is the sequence of its entries, and the points where that library can fail
 * are given as a `ZipLibrary` value.
 */
module Archive {
  import opened Base

  /** `JPGImg`: a file name with its extension removed and the JPEG bytes of the image. */
  datatype JPGImg = JPGImg(fileName: string, img: seq<byte>)

  /** One file of the archive. */
  datatype ZipEntry = ZipEntry(name: string, data: seq<byte>)

  /** Whether each step of archive/zip succeeds: `Create(name)`, a `Write` of some bytes, and `Close`. */
  datatype ZipLibrary = ZipLibrary(
    createOk: string -> bool,
    writeOk: seq<byte> -> bool,
    closeOk: seq<ZipEntry> -> bool)

  /** `fmt.Sprintf("%s.jpg", content.FileName)`. */
  function EntryName(content: JPGImg): string
  {
    content.fileName + ".jpg"
  }

  /** Distinct file names give distinct entry names; equal stems give equal entry names. */
  lemma EntryNameInjective(a: JPGImg, b: JPGImg)
    ensures EntryName(a) == EntryName(b) <==> a.fileName == b.fileName
  {
    if EntryName(a) == EntryName(b) {
      assert |a.fileName| == |b.fileName|;
      assert a.fileName == EntryName(a)[..|a.fileName|];
      assert b.fileName == EntryName(b)[..|b.fileName|];
    }
  }

  /** The entries an archive of `data` holds: one per image, in order. */
  function Entries(data: seq<JPGImg>): (es: seq<ZipEntry>)
  {
    seq(|data|, k requires 0 <= k < |data| => ZipEntry(EntryName(data[k]), data[k].img))
  }

  /** Every `Create` and every `Write` of the entries of `data` succeeds. */
  ghost predicate AllWritten(data: seq<JPGImg>, lib: ZipLibrary) {
    forall k :: 0 <= k < |data| ==> lib.createOk(EntryName(data[k])) && lib.writeOk(data[k].img)
  }

  /**
   * What `createZip` delivers: the archive of all entries when every step
   * and the final `Close` succeed, and nothing otherwise.
   */
  ghost function Zipped(data: seq<JPGImg>, lib: ZipLibrary): Option<seq<ZipEntry>>
  {
    if AllWritten(data, lib) && lib.closeOk(Entries(data)) then Some(Entries(data)) else None
  }

  /** A delivered archive has exactly one entry per image, named `FileName + ".jpg"`, in input order. */
  lemma ZippedShape(data: seq<JPGImg>, lib: ZipLibrary)
    requires Zipped(data, lib).Some?
    ensures |Zipped(data, lib).value| == |data|
    ensures forall k :: 0 <= k < |data| ==>
      Zipped(data, lib).value[k] == ZipEntry(data[k].fileName + ".jpg", data[k].img)
  {
  }

  /** The in-memory `zip.Writer` with the entries written to it so far. */
  class ZipWriter {
    const lib: ZipLibrary
    var entries: seq<ZipEntry>
    var closed: bool

    /** `zip.NewWriter(&zipData)`. */
    constructor (lib: ZipLibrary)
      ensures this.lib == lib && entries == [] && !closed
    {
      this.lib := lib;
      entries := [];
      closed := false;
    }

    /** `Create(name)`: starts a new, empty entry, unless the library refuses. */
    method Create(name: string) returns (ok: bool)
      requires !closed
      modifies this
      ensures ok == lib.createOk(name) && !closed
      ensures entries == if ok then old(entries) + [ZipEntry(name, [])] else old(entries)
    {
      ok := lib.createOk(name);
      if ok {
        entries := entries + [ZipEntry(name, [])];
      }
    }

    /** `Write(data)` on the writer of the last entry: appends `data` to it, unless the library refuses. */
    method Write(data: seq<byte>) returns (ok: bool)
      requires !closed && entries != []
      modifies this
      ensures ok == lib.writeOk(data) && !closed
      ensures var last := old(entries)[|old(entries)| - 1];
        entries == if ok then old(entries)[..|old(entries)| - 1] + [ZipEntry(last.name, last.data + data)] else old(entries)
    {
      ok := lib.writeOk(data);
      if ok {
        var last := entries[|entries| - 1];
        entries := entries[..|entries| - 1] + [ZipEntry(last.name, last.data + data)];
      }
    }

    /** `Close()`: finishes the archive. */
    method Close() returns (ok: bool)
      requires !closed
      modifies this
      ensures ok == lib.closeOk(entries) && closed && entries == old(entries)
    {
      ok := lib.closeOk(entries);
      closed := true;
    }
  }

  /** `createZip`: writes each image as one entry, returning on the first failure with no archive. */
  method CreateZip(data: seq<JPGImg>, lib: ZipLibrary) returns (archive: Option<seq<ZipEntry>>)
    ensures archive == Zipped(data, lib)
  {
    var zipWriter := new ZipWriter(lib);
    for k := 0 to |data|
      invariant zipWriter.lib == lib && !zipWriter.closed
      invariant zipWriter.entries == Entries(data[..k])
      invariant AllWritten(data[..k], lib)
    {
      var content := data[k];
      var fileName := EntryName(content);
      var ok := zipWriter.Create(fileName);
      if !ok {
        return None;
      }
      ok := zipWriter.Write(content.img);
      if !ok {
        return None;
      }
      assert data[..k + 1] == data[..k] + [content];
      assert [] + content.img == content.img;
      assert Entries(data[..k + 1]) == Entries(data[..k]) + [ZipEntry(fileName, content.img)];
    }
    assert data[..|data|] == data;
    var ok := zipWriter.Close();
    if !ok {
      return None;
    }
    return Some(zipWriter.entries);
  }
}

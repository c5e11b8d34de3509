/** Graphics records of the catalogue (table GRAPHICS) and the paths under
    which their files are served. An `Image` and a `PdfFile` are the same stored
    row read through two path-building rules, so they are two variants of one
    datatype rather than two classes. */
module Graphics {
  import opened Wrappers
  import opened Strings

  /** Declared width of the DOC_EXTENSION column. */
  const ExtMaxLength: nat := 9

  /** A document type (table DOC_TYPES); only its extension takes part in paths. */
  datatype FileType = FileType(id: int, ext: string) {
    predicate Valid() {
      |ext| <= ExtMaxLength
    }
  }

  /** A stored graphics row: its document type, the table number (GRA_TAB_NR)
      and the numeric file name (GRA_GRD_ID). */
  datatype File = File(id: int, fileType: FileType, dbNumber: int, filename: int)

  /** The two readings of a graphics row. */
  datatype GraphicsFile = Image(file: File) | PdfFile(file: File)

  const ImagePrefix: string := "images/"
  const PdfPrefix: string := "/pdf/000"
  const PdfSuffix: string := ".pdf"

  /** The extension an image is served with: the stored extension lower-cased,
      except that JPEG 2000 masters ("jp2", in any case) are served as "jpg". */
  function NormalizeExt(ext: string): (r: string)
    ensures |r| == |ext|
    ensures HasNoUpper(r)
    ensures r != "jp2"
    ensures EqualsIgnoreCase(ext, "jp2") ==> r == "jpg"
    ensures !EqualsIgnoreCase(ext, "jp2") ==> EqualsIgnoreCase(r, ext)
  {
    var e := Lower(ext);
    LowerEqualIff(ext, "jp2");
    assert Lower("jp2") == "jp2" by { LowerFixesIff("jp2"); }
    if e == "jp2" then "jpg" else e
  }

  /** Where an image is served: `images/<db_number>/<filename>.<ext>`. */
  function ImageRelativePath(f: File): (p: string)
    ensures StartsWith(p, ImagePrefix)
  {
    ImagePrefix + IntToString(f.dbNumber) + "/" + IntToString(f.filename) + "." + NormalizeExt(f.fileType.ext)
  }

  /** Where a PDF is served: `/pdf/000<filename>.pdf`. Between the fixed prefix
      and the suffix stands the file name exactly as `%s` writes it, with no
      further zero padding. */
  function PdfRelativePath(f: File): (p: string)
    ensures StartsWith(p, PdfPrefix) && EndsWith(p, PdfSuffix)
    ensures |p| > |PdfPrefix| + |PdfSuffix|
    ensures IsCanonicalInt(p[|PdfPrefix|..|p| - |PdfSuffix|])
  {
    var n := IntToString(f.filename);
    var p := PdfPrefix + n + PdfSuffix;
    assert p[|PdfPrefix|..|p| - |PdfSuffix|] == n;
    p
  }

  /** The path of a file relative to the file host, chosen by the kind of file. */
  function RelativePath(g: GraphicsFile): (p: string)
    ensures g.Image? ==> StartsWith(p, ImagePrefix)
    ensures g.PdfFile? ==> StartsWith(p, PdfPrefix) && EndsWith(p, PdfSuffix)
  {
    match g
    case Image(f) => ImageRelativePath(f)
    case PdfFile(f) => PdfRelativePath(f)
  }

  /** The full address of a file: the configured file host followed by its relative path. */
  function AbsolutePath(fileHost: string, g: GraphicsFile): (u: string)
    ensures StartsWith(u, fileHost)
    ensures u[|fileHost|..] == RelativePath(g)
  {
    fileHost + RelativePath(g)
  }

  // ---------------------------------------------------------------------------
  // Reading paths back
  // ---------------------------------------------------------------------------

  /** The fields an image path is made of. */
  datatype ImagePathParts = ImagePathParts(dbNumber: int, filename: int, ext: string)

  /** Splits `images/<db>/<name>.<ext>` at the first '/' after the prefix and the
      first '.' after that. */
  function ParseImagePath(p: string): Option<ImagePathParts> {
    if StartsWith(p, ImagePrefix) then ParseImageDir(p[|ImagePrefix|..]) else None
  }

  /** Reads `<db>/<name>.<ext>`. */
  function ParseImageDir(s: string): Option<ImagePathParts> {
    match IndexOf(s, '/')
    case None => None
    case Some(i) =>
      match (ParseInt(s[..i]), ParseImageName(s[i + 1..]))
      case (Some(d), Some((n, e))) => Some(ImagePathParts(d, n, e))
      case _ => None
  }

  /** Reads `<name>.<ext>`. */
  function ParseImageName(s: string): Option<(int, string)> {
    match IndexOf(s, '.')
    case None => None
    case Some(j) =>
      match ParseInt(s[..j])
      case None => None
      case Some(n) => Some((n, s[j + 1..]))
  }

  /** Reads the file name back out of `/pdf/000<name>.pdf`. */
  function ParsePdfPath(p: string): Option<int> {
    if StartsWith(p, PdfPrefix) && |p| >= |PdfPrefix| + |PdfSuffix| && EndsWith(p, PdfSuffix)
    then ParseInt(p[|PdfPrefix|..|p| - |PdfSuffix|])
    else None
  }

  // ---------------------------------------------------------------------------
  // Image paths
  // ---------------------------------------------------------------------------

  lemma ParseImageNameOfParts(ns: string, e: string, n: int)
    requires ParseInt(ns) == Some(n) && '.' !in ns
    ensures ParseImageName(ns + ['.'] + e) == Some((n, e))
  {
    IndexOfAfter(ns, '.', e);
  }

  lemma ParseImageDirOfParts(ds: string, name: string, d: int, n: int, e: string)
    requires ParseInt(ds) == Some(d) && '/' !in ds
    requires ParseImageName(name) == Some((n, e))
    ensures ParseImageDir(ds + ['/'] + name) == Some(ImagePathParts(d, n, e))
  {
    IndexOfAfter(ds, '/', name);
  }

  /** The parser splits a path assembled from separator-free numerals at the
      right places. */
  lemma ParseImagePathOfParts(ds: string, ns: string, e: string, d: int, n: int)
    requires ParseInt(ds) == Some(d) && ParseInt(ns) == Some(n)
    requires '/' !in ds && '.' !in ns
    ensures ParseImagePath(ImagePrefix + (ds + ['/'] + (ns + ['.'] + e))) == Some(ImagePathParts(d, n, e))
  {
    var name := ns + ['.'] + e;
    ParseImageNameOfParts(ns, e, n);
    var dir := ds + ['/'] + name;
    ParseImageDirOfParts(ds, name, d, n, e);
    var p := ImagePrefix + dir;
    assert p[..|ImagePrefix|] == ImagePrefix && p[|ImagePrefix|..] == dir;
  }

  lemma ImagePathRegroup(ds: string, ns: string, e: string)
    ensures ImagePrefix + ds + "/" + ns + "." + e == ImagePrefix + (ds + ['/'] + (ns + ['.'] + e))
  {
  }

  /** An image path determines the table number, the file name and the served
      extension it was built from. */
  lemma ImagePathRoundTrip(f: File)
    ensures ParseImagePath(RelativePath(Image(f))) ==
            Some(ImagePathParts(f.dbNumber, f.filename, NormalizeExt(f.fileType.ext)))
  {
    var ds, ns, e := IntToString(f.dbNumber), IntToString(f.filename), NormalizeExt(f.fileType.ext);
    IntToStringAvoids(f.dbNumber, '/');
    IntToStringAvoids(f.filename, '.');
    IntToStringRoundTrip(f.dbNumber);
    IntToStringRoundTrip(f.filename);
    ParseImagePathOfParts(ds, ns, e, f.dbNumber, f.filename);
    ImagePathRegroup(ds, ns, e);
  }

  lemma ParseImageNameExact(s: string, n: int, e: string)
    requires ParseImageName(s) == Some((n, e))
    ensures s == IntToString(n) + ['.'] + e
  {
    var j := IndexOf(s, '.').value;
    assert s == s[..j] + ['.'] + s[j + 1..];
    ParseIntExact(s[..j], n);
  }

  lemma ParseImageDirExact(s: string, parts: ImagePathParts)
    requires ParseImageDir(s) == Some(parts)
    ensures s == IntToString(parts.dbNumber) + ['/'] + (IntToString(parts.filename) + ['.'] + parts.ext)
  {
    var i := IndexOf(s, '/').value;
    assert s == s[..i] + ['/'] + s[i + 1..];
    ParseIntExact(s[..i], parts.dbNumber);
    ParseImageNameExact(s[i + 1..], parts.filename, parts.ext);
  }

  /** Whatever the parser accepts is exactly the path assembled from the parts
      it returns: no padded numeral and no "-0" gets through. */
  lemma ParseImagePathExact(p: string, parts: ImagePathParts)
    requires ParseImagePath(p) == Some(parts)
    ensures p == ImagePrefix + (IntToString(parts.dbNumber) + ['/'] + (IntToString(parts.filename) + ['.'] + parts.ext))
  {
    var dir := p[|ImagePrefix|..];
    assert p == ImagePrefix + dir;
    ParseImageDirExact(dir, parts);
  }

  /** A string is an image's path exactly when it reads back as that image's
      table number, file name and served extension. */
  lemma ImagePathIff(p: string, f: File)
    ensures ParseImagePath(p) == Some(ImagePathParts(f.dbNumber, f.filename, NormalizeExt(f.fileType.ext)))
            <==> p == RelativePath(Image(f))
  {
    ImagePathRoundTrip(f);
    var parts := ImagePathParts(f.dbNumber, f.filename, NormalizeExt(f.fileType.ext));
    if ParseImagePath(p) == Some(parts) {
      ParseImagePathExact(p, parts);
      ImagePathRegroup(IntToString(f.dbNumber), IntToString(f.filename), parts.ext);
    }
  }

  /** Two images share a path only when they agree on table number, file name
      and served extension. */
  lemma ImagePathInjective(f: File, g: File)
    requires RelativePath(Image(f)) == RelativePath(Image(g))
    ensures f.dbNumber == g.dbNumber && f.filename == g.filename
    ensures NormalizeExt(f.fileType.ext) == NormalizeExt(g.fileType.ext)
  {
    ImagePathRoundTrip(f);
    ImagePathRoundTrip(g);
  }

  /** The served extension never has an upper-case letter and never is "jp2";
      a "jp2" extension in any case is served as "jpg", any other as its lower-case form. */
  lemma ImagePathExtension(f: File)
    ensures ParseImagePath(RelativePath(Image(f))).Some?
    ensures var e := ParseImagePath(RelativePath(Image(f))).value.ext;
            HasNoUpper(e) && e != "jp2" &&
            (Lower(f.fileType.ext) == "jp2" ==> e == "jpg") &&
            (Lower(f.fileType.ext) != "jp2" ==> e == Lower(f.fileType.ext))
  {
    ImagePathRoundTrip(f);
  }

  lemma DotAt(x: string, e: string)
    ensures |x + ['.'] + e| == |x| + 1 + |e| && (x + ['.'] + e)[|x|] == '.'
  {
  }

  /** A string `x.e` ends in ".jp2" only through `e`, unless `e` is "jp2" itself. */
  lemma DotSuffix(x: string, e: string)
    requires e != "jp2"
    ensures EndsWith(x + ['.'] + e, ".jp2") <==> |e| >= 4 && EndsWith(e, ".jp2")
  {
    var p := x + ['.'] + e;
    var k := |e|;
    if k >= 4 {
      assert p[|p| - 4..] == e[k - 4..];
    } else if k == 3 {
      assert p[|p| - 4..] == ['.'] + e;
      assert (['.'] + e)[1..] == e && ".jp2"[1..] == "jp2";
    } else if EndsWith(p, ".jp2") {
      DotAt(x, e);
      assert false;
    }
  }

  /** An image path ends in ".jp2" exactly when the lower-cased stored extension
      does, which needs a '.' inside the extension itself. */
  lemma ImagePathEndsWithJp2Iff(f: File)
    ensures EndsWith(RelativePath(Image(f)), ".jp2") <==> EndsWith(Lower(f.fileType.ext), ".jp2")
  {
    var e := NormalizeExt(f.fileType.ext);
    var x := ImagePrefix + IntToString(f.dbNumber) + "/" + IntToString(f.filename);
    assert RelativePath(Image(f)) == x + ['.'] + e;
    DotSuffix(x, e);
    var l := Lower(f.fileType.ext);
    if |l| >= 4 {
      assert l != "jp2";
      LowerEqualIff(f.fileType.ext, "jp2");
      assert e == l;
    }
  }

  /** An image whose stored extension has no '.' is never served as ".jp2". */
  lemma ImagePathNeverJp2(f: File)
    requires '.' !in f.fileType.ext
    ensures !EndsWith(RelativePath(Image(f)), ".jp2")
  {
    ImagePathEndsWithJp2Iff(f);
    LowerKeeps(f.fileType.ext, '.');
    var l := Lower(f.fileType.ext);
    if EndsWith(l, ".jp2") {
      EndsWithHead(l, ".jp2");
    }
  }

  /** The served extension keeps the stored extension's length, so it fits the
      same column width. */
  lemma NormalizeExtFits(t: FileType)
    requires t.Valid()
    ensures |NormalizeExt(t.ext)| <= ExtMaxLength
  {
  }

  /** Normalising a served extension again changes nothing. */
  lemma NormalizeExtIdempotent(ext: string)
    ensures NormalizeExt(NormalizeExt(ext)) == NormalizeExt(ext)
  {
    var r := NormalizeExt(ext);
    LowerFixesIff(r);
    LowerEqualIff(r, "jp2");
    assert Lower("jp2") == "jp2" by { LowerFixesIff("jp2"); }
  }

  lemma ImageExampleJp2()
    ensures RelativePath(Image(File(1, FileType(1, "JP2"), 7, 42))) == "images/7/42.jpg"
  {
  }

  lemma ImageExamplePng()
    ensures RelativePath(Image(File(1, FileType(2, "PNG"), 7, 42))) == "images/7/42.png"
  {
  }

  /** A "JP2" master and a "jpg" image with the same numbers share one path. */
  lemma ImageJp2AndJpgCollide()
    ensures RelativePath(Image(File(1, FileType(1, "JP2"), 7, 42))) ==
            RelativePath(Image(File(2, FileType(3, "jpg"), 7, 42)))
  {
  }

  // ---------------------------------------------------------------------------
  // PDF paths
  // ---------------------------------------------------------------------------

  /** A PDF path determines the file name it was built from. */
  lemma PdfPathRoundTrip(f: File)
    ensures ParsePdfPath(RelativePath(PdfFile(f))) == Some(f.filename)
  {
    var n := IntToString(f.filename);
    var p := RelativePath(PdfFile(f));
    assert p == PdfPrefix + n + PdfSuffix;
    assert p[|PdfPrefix|..|p| - |PdfSuffix|] == n;
    IntToStringRoundTrip(f.filename);
  }

  /** A string is a PDF's path exactly when it reads back as its file name, so
      `/pdf/000000015.pdf` is not the path of file 15. */
  lemma PdfPathIff(p: string, f: File)
    ensures ParsePdfPath(p) == Some(f.filename) <==> p == RelativePath(PdfFile(f))
  {
    PdfPathRoundTrip(f);
    if ParsePdfPath(p) == Some(f.filename) {
      var m := p[|PdfPrefix|..|p| - |PdfSuffix|];
      ParseIntExact(m, f.filename);
      assert p == p[..|PdfPrefix|] + m + p[|p| - |PdfSuffix|..];
    }
  }

  /** A padded file name is not read back, so `/pdf/000000015.pdf` passes for no PDF's path. */
  lemma PdfPaddedPathRejected()
    ensures ParsePdfPath("/pdf/000000015.pdf") == None
  {
    assert "/pdf/000000015.pdf"[|PdfPrefix|..18 - |PdfSuffix|] == "000015";
  }

  /** A PDF path depends on the file name alone: not on the document type, its
      extension, or the table number. */
  lemma PdfPathDependsOnFilenameOnly(f: File, g: File)
    ensures RelativePath(PdfFile(f)) == RelativePath(PdfFile(g)) <==> f.filename == g.filename
  {
    if RelativePath(PdfFile(f)) == RelativePath(PdfFile(g)) {
      PdfPathRoundTrip(f);
      PdfPathRoundTrip(g);
    }
  }

  /** The prefix pads with exactly three zeros; the file name itself is not padded. */
  lemma PdfExample()
    ensures RelativePath(PdfFile(File(1, FileType(4, "PDF"), 7, 15))) == "/pdf/00015.pdf"
  {
  }

  // ---------------------------------------------------------------------------
  // Absolute paths
  // ---------------------------------------------------------------------------

  /** Stripping the host from an image's absolute path and reading the rest back
      recovers the image's fields. */
  lemma AbsoluteImagePathRoundTrip(fileHost: string, f: File)
    ensures ParseImagePath(AbsolutePath(fileHost, Image(f))[|fileHost|..]) ==
            Some(ImagePathParts(f.dbNumber, f.filename, NormalizeExt(f.fileType.ext)))
  {
    ImagePathRoundTrip(f);
  }

  /** Stripping the host from a PDF's absolute path and reading the rest back
      recovers its file name. */
  lemma AbsolutePdfPathRoundTrip(fileHost: string, f: File)
    ensures ParsePdfPath(AbsolutePath(fileHost, PdfFile(f))[|fileHost|..]) == Some(f.filename)
  {
    PdfPathRoundTrip(f);
  }
}

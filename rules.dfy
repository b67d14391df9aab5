/**
 * The pure rules the three upload pages apply around their state: which
 * files a page accepts, how a size is shown in kilobytes, what the
 * downloaded result is called, how a long file name is shortened, when a
 * click on the drop area opens the file picker, and where a file is sent.
 */
module UploadRules {
  import opened Wrappers
  import opened Text

  /** The three pages: App (PDF to PNG), ImageWbp (image to WebP), RemoveBg. */
  datatype Kind = PdfToPng | ImageToWebp | RemoveBackground

  /** The attributes of a browser `File` the pages read. */
  datatype FileInfo = FileInfo(name: string, size: nat, mime: string)

  /** Only the two image pages have a drop area. */
  predicate HasDropArea(kind: Kind)
  {
    kind != PdfToPng
  }

  const PdfMime: string := "application/pdf"
  const ImageMimePrefix: string := "image/"

  /** The acceptance test each page applies to a chosen file's MIME type. */
  function Accepts(kind: Kind, mime: string): (ok: bool)
    ensures kind == PdfToPng ==> (ok <==> mime == "application/pdf")
    ensures kind != PdfToPng ==> (ok <==> |mime| >= 6 && mime[..6] == "image/")
  {
    match kind
    case PdfToPng => mime == PdfMime
    case ImageToWebp => StartsWith(mime, ImageMimePrefix)
    case RemoveBackground => StartsWith(mime, ImageMimePrefix)
  }

  lemma AcceptanceIsDisjoint(mime: string)
    ensures !(Accepts(PdfToPng, mime) && Accepts(ImageToWebp, mime))
    ensures Accepts(ImageToWebp, mime) <==> Accepts(RemoveBackground, mime)
    ensures Accepts(PdfToPng, mime) <==> mime == "application/pdf"
  {
    if Accepts(PdfToPng, mime) {
      assert mime[..6] == "applic";
    }
  }

  // ---------------------------------------------------------------------
  // Size in kilobytes, `(size / 1024).toFixed(1)`

  /**
   * The number of tenths of a kilobyte `toFixed(1)` prints for `size`
   * bytes: the integer `t` nearest to `10 * size / 1024`, the larger one on
   * a tie.
   */
  function KbTenths(size: nat): (t: nat)
    ensures t * 1024 - 512 <= size * 10 < t * 1024 + 512
  {
    (size * 10 + 512) / 1024
  }

  /** `t` is at least as near to `10 * size / 1024` as any other integer `m`, and larger on a tie. */
  lemma {:induction false} KbTenthsNearest(size: nat, m: int)
    ensures var t := KbTenths(size);
      var dt := if size * 10 >= t * 1024 then size * 10 - t * 1024 else t * 1024 - size * 10;
      var dm := if size * 10 >= m * 1024 then size * 10 - m * 1024 else m * 1024 - size * 10;
      dt <= dm && (dt == dm ==> m <= t)
  {
    var t := KbTenths(size);
    var x := size * 10;
    assert t * 1024 <= x + 512 < t * 1024 + 1024;
    if m <= t - 1 {
      assert m * 1024 <= t * 1024 - 1024;
    } else if m >= t + 1 {
      assert m * 1024 >= t * 1024 + 1024;
    }
  }

  /** The text between the parentheses of a selection message, without " KB". */
  function KbText(size: nat): (s: string)
    ensures |s| >= 3 && s[|s| - 2] == '.'
    ensures AllDigits(s[..|s| - 2]) && IsDigit(s[|s| - 1])
    ensures |s| > 3 ==> s[0] != '0'
  {
    var t := KbTenths(size);
    var s := NatToString(t / 10) + "." + [DigitChar(t % 10)];
    assert s[..|s| - 2] == NatToString(t / 10);
    s
  }

  /** Reads a `KbText` back as a number of tenths. */
  function ParseKb(s: string): nat
    requires |s| >= 3 && AllDigits(s[..|s| - 2]) && IsDigit(s[|s| - 1])
  {
    ParseNat(s[..|s| - 2]) * 10 + DigitValue(s[|s| - 1])
  }

  lemma {:induction false} KbTextRoundTrip(size: nat)
    ensures ParseKb(KbText(size)) == KbTenths(size)
  {
    var t := KbTenths(size);
    var s := KbText(size);
    assert s[..|s| - 2] == NatToString(t / 10);
    ParseNatToString(t / 10);
  }

  lemma KbTextExamples()
    ensures KbText(2048) == "2.0"
    ensures KbText(256) == "0.3"
    ensures KbText(51) == "0.0"
    ensures KbText(10240) == "10.0"
  {
    assert NatToString(1) == "1";
    assert NatToString(10 / 10) == "1";
    assert NatToString(100 / 10) == NatToString(1) + "0";
  }

  /** The status text shown once a file is accepted by an image page. */
  function SelectedMessage(f: FileInfo): (msg: string)
    ensures StartsWith(msg, "File \"")
    ensures Contains(msg, f.name)
    ensures Contains(msg, KbText(f.size) + " KB")
    ensures !StartsWith(msg, "Error:")
  {
    var kb := KbText(f.size);
    var head := "File \"";
    var mid := "\" selected (";
    var msg := head + f.name + mid + kb + " KB)";
    assert msg == head + f.name + (mid + kb + " KB)");
    ContainsMiddle(head, f.name, mid + kb + " KB)");
    assert msg == (head + f.name + mid) + (kb + " KB") + ")";
    ContainsMiddle(head + f.name + mid, kb + " KB", ")");
    assert msg[..|head|] == head;
    assert msg[0] == 'F';
    msg
  }

  // ---------------------------------------------------------------------
  // Result file names

  /** `name.split(".")[0]`: everything before the first dot, or the whole name. */
  function BeforeFirstDot(name: string): (r: string)
    ensures StartsWith(name, r)
    ensures forall i :: 0 <= i < |r| ==> r[i] != '.'
    ensures |r| < |name| ==> name[|r|] == '.'
  {
    if name == [] || name[0] == '.' then []
    else [name[0]] + BeforeFirstDot(name[1..])
  }

  /** The three properties of `BeforeFirstDot` determine it. */
  lemma {:induction false} BeforeFirstDotUnique(name: string, r: string)
    requires StartsWith(name, r)
    requires forall i :: 0 <= i < |r| ==> r[i] != '.'
    requires |r| < |name| ==> name[|r|] == '.'
    ensures r == BeforeFirstDot(name)
  {
    if name != [] && name[0] != '.' {
      assert r != [];
      assert r[0] == name[0];
      BeforeFirstDotUnique(name[1..], r[1..]);
      assert r == [name[0]] + r[1..];
    }
  }

  const RemoveBgSuffix: string := "_no_bg.png"

  /** The extensions `/\.(png|jpg|jpeg|gif|bmp|tiff|svg)$/i` recognises, in its order. */
  const ImageExtensions: seq<string> := ["png", "jpg", "jpeg", "gif", "bmp", "tiff", "svg"]

  /** The regular expression matches `name` at index `p`. */
  predicate ImageSuffixAt(name: string, p: int)
  {
    0 <= p < |name| && name[p] == '.' && LowerAsciiString(name[p + 1..]) in ImageExtensions
  }

  /** `name` ends in `"." + ext`, letters compared without regard to ASCII case. */
  predicate EndsWithExtension(name: string, ext: string)
  {
    |name| > |ext| && name[|name| - |ext| - 1] == '.' && LowerAsciiString(name[|name| - |ext|..]) == ext
  }

  /** Where the regular expression matches, trying the alternatives in order. */
  function ImageSuffixStart(name: string): (r: Option<nat>)
    ensures r.Some? ==> ImageSuffixAt(name, r.value)
    ensures r.None? ==> forall p :: !ImageSuffixAt(name, p)
  {
    FindExtension(name, 0)
  }

  function FindExtension(name: string, k: nat): (r: Option<nat>)
    requires k <= |ImageExtensions|
    requires forall j :: 0 <= j < k ==> !EndsWithExtension(name, ImageExtensions[j])
    ensures r.Some? ==> ImageSuffixAt(name, r.value)
    ensures r.None? ==> forall p :: !ImageSuffixAt(name, p)
    decreases |ImageExtensions| - k
  {
    if k == |ImageExtensions| then
      assert forall p :: !ImageSuffixAt(name, p) by {
        forall p | ImageSuffixAt(name, p)
          ensures EndsWithExtension(name, LowerAsciiString(name[p + 1..]))
        {
          assert name[|name| - |name[p + 1..]|..] == name[p + 1..];
        }
      }
      None
    else if EndsWithExtension(name, ImageExtensions[k]) then
      var e := ImageExtensions[k];
      assert name[|name| - |e| - 1 + 1..] == name[|name| - |e|..];
      Some(|name| - |e| - 1)
    else FindExtension(name, k + 1)
  }

  /** The regular expression can match at one index only: the extension holds no dot. */
  lemma ImageSuffixUnique(name: string, p: int, q: int)
    requires ImageSuffixAt(name, p) && ImageSuffixAt(name, q)
    ensures p == q
  {
    if p < q {
      NoDotInExtension(name, p, q);
    } else if q < p {
      NoDotInExtension(name, q, p);
    }
  }

  lemma NoDotInExtension(name: string, p: int, q: int)
    requires ImageSuffixAt(name, p) && p < q < |name|
    ensures name[q] != '.'
  {
    var e := LowerAsciiString(name[p + 1..]);
    assert e[q - p - 1] == LowerAscii(name[q]);
    assert forall j :: 0 <= j < |ImageExtensions| ==> '.' !in ImageExtensions[j];
  }

  /** A dot after index `p` keeps the text after `p` from being an extension. */
  lemma DotInTail(name: string, p: int, q: int)
    requires 0 <= p < q < |name| && name[q] == '.'
    ensures LowerAsciiString(name[p + 1..]) !in ImageExtensions
  {
    var e := LowerAsciiString(name[p + 1..]);
    assert e[q - p - 1] == '.';
    assert forall j :: 0 <= j < |ImageExtensions| ==> '.' !in ImageExtensions[j];
  }

  /** `name.replace(/\.(png|jpg|jpeg|gif|bmp|tiff|svg)$/i, ".webp")`. */
  function WebpName(name: string): (r: string)
    ensures forall p :: ImageSuffixAt(name, p) ==> r == name[..p] + ".webp"
    ensures (forall p :: !ImageSuffixAt(name, p)) ==> r == name
  {
    match ImageSuffixStart(name)
    case Some(p) =>
      assert forall q :: ImageSuffixAt(name, q) ==> q == p by {
        forall q | ImageSuffixAt(name, q) ensures q == p { ImageSuffixUnique(name, p, q); }
      }
      name[..p] + ".webp"
    case None => name
  }

  /** Renaming to WebP a second time changes nothing: "webp" is not a recognised extension. */
  lemma WebpNameIdempotent(name: string)
    ensures WebpName(WebpName(name)) == WebpName(name)
  {
    var r := WebpName(name);
    if r != name {
      var p := ImageSuffixStart(name).value;
      assert r == name[..p] + ".webp";
      NoImageSuffixBeforeWebp(r);
    }
  }

  /** A name ending in ".webp" gives the regular expression nothing to match. */
  lemma NoImageSuffixBeforeWebp(r: string)
    requires |r| >= 5 && r[|r| - 5..] == ".webp"
    ensures forall q :: !ImageSuffixAt(r, q)
  {
    var p := |r| - 5;
    forall q | 0 <= q < |r| && r[q] == '.'
      ensures LowerAsciiString(r[q + 1..]) !in ImageExtensions
    {
      if q < p {
        DotInTail(r, q, p);
      } else if q == p {
        assert r[p + 1..] == "webp";
        assert LowerAsciiString("webp") == "webp";
      }
    }
  }

  lemma WebpNameUpperCaseExample()
    ensures WebpName("photo.JPEG") == "photo.webp"
  {
    var n := "photo.JPEG";
    assert n[6..] == "JPEG";
    assert LowerAsciiString("JPEG") == "jpeg";
    assert ImageSuffixAt(n, 5);
  }

  lemma WebpNameInnerExtensionExample()
    ensures WebpName("a.png.txt") == "a.png.txt"
  {
    var n := "a.png.txt";
    assert n[6..] == "txt";
    assert LowerAsciiString("txt") == "txt";
    forall p | 0 <= p < |n| && n[p] == '.'
      ensures LowerAsciiString(n[p + 1..]) !in ImageExtensions
    {
      if p == 1 {
        DotInTail(n, 1, 5);
      } else {
        assert p == 5;
      }
    }
  }

  const PdfDownloadName: string := "converted.png"

  /** The name the browser download is given on success, per page. */
  function OutputName(kind: Kind, name: string): (r: string)
    ensures kind == PdfToPng ==> r == "converted.png"
    ensures kind == RemoveBackground ==>
      EndsWith(r, "_no_bg.png") && r[..|r| - 10] == BeforeFirstDot(name)
    ensures kind == ImageToWebp ==> r == WebpName(name)
  {
    match kind
    case PdfToPng => PdfDownloadName
    case ImageToWebp => WebpName(name)
    case RemoveBackground =>
      var r := BeforeFirstDot(name) + RemoveBgSuffix;
      assert r[|r| - 10..] == RemoveBgSuffix;
      r
  }

  lemma RemoveBgNameExamples()
    ensures OutputName(RemoveBackground, "me.selfie.png") == "me_no_bg.png"
    ensures OutputName(RemoveBackground, "noext") == "noext_no_bg.png"
  {
    BeforeFirstDotUnique("me.selfie.png", "me");
    BeforeFirstDotUnique("noext", "noext");
  }

  lemma PdfNameExample()
    ensures OutputName(PdfToPng, "report.PDF") == "converted.png"
  {
  }

  // ---------------------------------------------------------------------
  // Display name on the WebP page

  const DisplayLimit: nat := 25

  /** A name longer than 25 characters is shown as its first 22 and "...". */
  function DisplayName(name: string): (r: string)
    ensures |r| <= DisplayLimit
    ensures |name| <= DisplayLimit ==> r == name
    ensures |name| > DisplayLimit ==> |r| == DisplayLimit && StartsWith(name, r[..22]) && EndsWith(r, "...")
  {
    if |name| > DisplayLimit then name[..22] + "..." else name
  }

  // ---------------------------------------------------------------------
  // Clicks on the drop area

  /** The index of the nearest element in `path` (target first, then its ancestors) named `tag`. */
  function Closest(path: seq<string>, tag: string): (r: Option<nat>)
    ensures r.Some? ==>
      (r.value < |path| && path[r.value] == tag && forall j :: 0 <= j < r.value ==> path[j] != tag)
    ensures r.None? ==> forall j :: 0 <= j < |path| ==> path[j] != tag
  {
    if path == [] then None
    else if path[0] == tag then Some(0)
    else match Closest(path[1..], tag)
      case Some(i) => Some(i + 1)
      case None => None
  }

  /**
   * A click on the drop area opens the file picker unless the clicked
   * element is a label or lies inside one. `path` lists the lower-case
   * local names of the clicked element and its ancestors.
   */
  function OpensPicker(path: seq<string>): (opens: bool)
    requires |path| > 0
    ensures opens <==> forall j :: 0 <= j < |path| ==> path[j] != "label"
  {
    path[0] != "label" && Closest(path, "label").None?
  }

  // ---------------------------------------------------------------------
  // Where each page sends its file

  /** The endpoint path a page POSTs to; each page has its own. */
  function Endpoint(kind: Kind): (path: string)
    ensures |path| > 1 && path[0] == '/'
  {
    match kind
    case PdfToPng => "/convert"
    case ImageToWebp => "/convertWebP"
    case RemoveBackground => "/removeBg"
  }

  /** No two pages share an endpoint, so a request's path tells which conversion it asks for. */
  lemma EndpointsDistinct(k1: Kind, k2: Kind)
    requires k1 != k2
    ensures Endpoint(k1) != Endpoint(k2)
  {
  }

  /** The multipart field the file travels in: `file` on the PDF page, `image` on the image pages. */
  function FieldName(kind: Kind): (field: string)
    ensures kind == PdfToPng <==> field == "file"
    ensures HasDropArea(kind) <==> field == "image"
  {
    if kind == PdfToPng then "file" else "image"
  }

  /** `error.error || "Conversion failed"`: a missing or empty error field falls back. */
  function ErrorText(error: Option<string>): (r: string)
    ensures r != ""
    ensures error.Some? && error.value != "" ==> r == error.value
    ensures error.None? || error.value == "" ==> r == "Conversion failed"
  {
    if error.Some? && error.value != "" then error.value else "Conversion failed"
  }
}

/**
 * The integer and string logic of the storage helpers: how `compressImage` fits an image's
 * pixel size to a bound, how the upload helpers name the stored object, and which content
 * type each upload is labelled with.
 */
module StorageUtils {
  import opened Options

  // ---------------------------------------------------------------------------
  // Rounding
  // ---------------------------------------------------------------------------

  /** `Math.round(num / den)` for a non-negative quotient: the nearest integer, halves rounded up. */
  function Round(num: nat, den: nat): (r: nat)
    requires den > 0
    ensures -(den as int) < 2 * (r * den - num) <= den
  {
    var q := (2 * num + den) / (2 * den);
    var m := (2 * num + den) % (2 * den);
    assert 2 * num + den == 2 * den * q + m && 0 <= m < 2 * den;
    assert 2 * (q * den - num) == den - m;
    q
  }

  /** `Math.round` of a non-negative quotient is zero exactly when the quotient is below one half. */
  lemma RoundIsZero(num: nat, den: nat)
    requires den > 0
    ensures Round(num, den) == 0 <==> 2 * num < den
  {
    if 2 * num < den {
      RoundUnique(num, den, 0);
    }
  }

  /** A product of a positive factor with a difference of at least one is at least that factor. */
  lemma MulAtLeast(a: int, d: int)
    requires a > 0 && d >= 1
    ensures a * d >= a
  {
    assert a * d == a + a * (d - 1);
  }

  /** Two integers within one half of the same quotient, halves rounded up, are equal. */
  lemma NearestIsUnique(num: int, den: int, r: int, q: int)
    requires den > 0
    requires -den < 2 * (r * den - num) <= den
    requires -den < 2 * (q * den - num) <= den
    ensures r == q
  {
    var d := r - q;
    assert den * d == r * den - q * den;
    if d >= 1 {
      MulAtLeast(2 * den, d);
    } else if d <= -1 {
      MulAtLeast(2 * den, -d);
    }
  }

  /** The rounding condition determines the rounded value: `Round` is the only integer satisfying it. */
  lemma RoundUnique(num: nat, den: nat, r: int)
    requires den > 0
    requires -(den as int) < 2 * (r * den - num) <= den
    ensures r == Round(num, den)
  {
    NearestIsUnique(num, den, r, Round(num, den));
  }

  // ---------------------------------------------------------------------------
  // Image dimensions (compressImage)
  // ---------------------------------------------------------------------------

  /** The default bounds `compressImage` is called with. */
  const MaxWidth: nat := 1920
  const MaxHeight: nat := 1080

  /** The content type every compressed image and every image upload carries. */
  const JpegType: string := "image/jpeg"

  datatype Dims = Dims(width: nat, height: nat)

  /**
   * The pixel size `compressImage` draws an image at. Only the longer side is bounded:
   * a landscape image is capped on its width, a portrait or square one on its height, and
   * the other side follows the aspect ratio, rounded to the nearest pixel.
   */
  function Fit(w: nat, h: nat, maxW: nat, maxH: nat): (d: Dims)
    ensures w > h && w > maxW ==>
      d.width == maxW && -(w as int) < 2 * (d.height * w - h * maxW) <= w
    ensures w <= h && h > maxH ==>
      d.height == maxH && -(h as int) < 2 * (d.width * h - w * maxH) <= h
    ensures (w > h && w <= maxW) || (w <= h && h <= maxH) ==> d == Dims(w, h)
  {
    if w > h then
      if w > maxW then Dims(maxW, Round(h * maxW, w)) else Dims(w, h)
    else
      if h > maxH then Dims(Round(w * maxH, h), maxH) else Dims(w, h)
  }

  /** Multiplying by a non-negative factor keeps the order of two integers. */
  lemma MulMonotone(a: int, b: int, c: int)
    requires a >= 0 && b <= c
    ensures a * b <= a * c
  {
    assert a * c - a * b == a * (c - b);
  }

  /** Scaling the short side by `bound / long < 1` and rounding never yields more than it had. */
  lemma ScaledSideShrinks(side: nat, bound: nat, long: nat, r: nat)
    requires bound < long
    requires 2 * (r * long - side * bound) <= long
    ensures r <= side
  {
    MulMonotone(side, bound, long - 1);
    assert side * (long - 1) == side * long - side;
    assert long * (side + 1) == side * long + long;
    if r >= side + 1 {
      MulMonotone(long, side + 1, r);
    }
  }

  /** Scaling a side no longer than the long one stays within the bound the long side gets. */
  lemma ScaledSideWithinBound(side: nat, bound: nat, long: nat, r: nat)
    requires 0 < long && side <= long
    requires 2 * (r * long - side * bound) <= long
    ensures r <= bound
  {
    MulMonotone(bound, side, long);
    assert long * (bound + 1) == bound * long + long;
    if r >= bound + 1 {
      MulMonotone(long, bound + 1, r);
    }
  }

  /** Resizing never enlarges: neither side of the result exceeds the original. */
  lemma {:induction false} FitNeverEnlarges(w: nat, h: nat, maxW: nat, maxH: nat)
    ensures Fit(w, h, maxW, maxH).width <= w
    ensures Fit(w, h, maxW, maxH).height <= h
  {
    var d := Fit(w, h, maxW, maxH);
    if w > h && w > maxW {
      ScaledSideShrinks(h, maxW, w, d.height);
    } else if w <= h && h > maxH {
      ScaledSideShrinks(w, maxH, h, d.width);
    }
  }

  /**
   * Only the governing side is bounded, and the orientation is never inverted: a landscape
   * result is at most `maxW` wide and no taller than wide; a portrait or square result is at
   * most `maxH` high and no wider than high.
   */
  lemma {:induction false} FitBoundsGoverningSide(w: nat, h: nat, maxW: nat, maxH: nat)
    ensures w > h ==> Fit(w, h, maxW, maxH).width <= maxW
    ensures w > h ==> Fit(w, h, maxW, maxH).height <= Fit(w, h, maxW, maxH).width
    ensures w <= h ==> Fit(w, h, maxW, maxH).height <= maxH
    ensures w <= h ==> Fit(w, h, maxW, maxH).width <= Fit(w, h, maxW, maxH).height
  {
    var d := Fit(w, h, maxW, maxH);
    if w > h && w > maxW {
      ScaledSideWithinBound(h, maxW, w, d.height);
    } else if w <= h && h > maxH {
      ScaledSideWithinBound(w, maxH, h, d.width);
    }
  }

  /**
   * The bound on the other side is not enforced: with the default bounds a 2000x1900 image
   * becomes 1920x1824, taller than `MaxHeight`.
   */
  lemma LandscapeHeightNotBounded()
    ensures Fit(2000, 1900, MaxWidth, MaxHeight) == Dims(1920, 1824)
    ensures Fit(2000, 1900, MaxWidth, MaxHeight).height > MaxHeight
  {
    RoundUnique(1900 * 1920, 2000, 1824);
  }

  /** A decoded image file: its name, its content type and its pixel size. */
  datatype ImageFile = ImageFile(name: string, mimeType: string, width: nat, height: nat)

  /** The file `compressImage` resolves with: same name, JPEG, fitted pixel size. */
  function Compressed(file: ImageFile, maxW: nat, maxH: nat): (out: ImageFile)
    ensures out.name == file.name && out.mimeType == JpegType
    ensures out.width <= file.width && out.height <= file.height
  {
    FitNeverEnlarges(file.width, file.height, maxW, maxH);
    var d := Fit(file.width, file.height, maxW, maxH);
    ImageFile(file.name, JpegType, d.width, d.height)
  }

  /**
   * The short side can round away to nothing: a landscape image over the width bound ends
   * 0 pixels high exactly when `2·h·maxW < w`, a portrait or square image over the height
   * bound 0 pixels wide exactly when `2·w·maxH < h`.
   */
  lemma FitZeroSide(w: nat, h: nat, maxW: nat, maxH: nat)
    ensures w > h && w > maxW ==> (Fit(w, h, maxW, maxH).height == 0 <==> 2 * (h * maxW) < w)
    ensures w <= h && h > maxH ==> (Fit(w, h, maxW, maxH).width == 0 <==> 2 * (w * maxH) < h)
  {
    if w > h && w > maxW {
      RoundIsZero(h * maxW, w);
    } else if w <= h && h > maxH {
      RoundIsZero(w * maxH, h);
    }
  }

  /** Whether a canvas of the file's size holds a pixel at all; `toBlob` yields no blob otherwise. */
  predicate HasPixels(f: ImageFile) {
    f.width > 0 && f.height > 0
  }

  /**
   * What `compressImage` settles with: the fitted JPEG, or `None` (the rejection
   * `Failed to compress image`) when the fitted canvas has a side of zero pixels.
   */
  function CompressOutcome(file: ImageFile, maxW: nat, maxH: nat): (out: Option<ImageFile>)
    ensures out.Some? <==> HasPixels(Compressed(file, maxW, maxH))
    ensures out.Some? ==> out.value == Compressed(file, maxW, maxH)
  {
    var c := Compressed(file, maxW, maxH);
    if HasPixels(c) then Some(c) else None
  }

  /**
   * `compressImage` from the pixel size on: reassigning `width` and `height` as it goes, then
   * encoding, which fails on an empty canvas.
   */
  method CompressImage(file: ImageFile, maxWidth: nat, maxHeight: nat) returns (out: Option<ImageFile>)
    ensures out == CompressOutcome(file, maxWidth, maxHeight)
  {
    var width := file.width;
    var height := file.height;
    if width > height {
      if width > maxWidth {
        height := Round(height * maxWidth, width);
        width := maxWidth;
      }
    } else {
      if height > maxHeight {
        width := Round(width * maxHeight, height);
        height := maxHeight;
      }
    }
    if width > 0 && height > 0 {
      out := Some(ImageFile(file.name, JpegType, width, height));
    } else {
      out := None;
    }
  }

  // ---------------------------------------------------------------------------
  // File names and storage paths
  // ---------------------------------------------------------------------------

  /**
   * `name.split('.').pop()`: the text after the last `.` of a name, or the whole name when it
   * holds no `.`. It is the longest suffix without a dot.
   */
  function Extension(name: string): (ext: string)
    ensures '.' !in ext
    ensures |ext| <= |name| && name[|name| - |ext|..] == ext
    ensures |ext| < |name| ==> name[|name| - |ext| - 1] == '.'
  {
    if name == [] then []
    else if name[|name| - 1] == '.' then []
    else Extension(name[..|name| - 1]) + [name[|name| - 1]]
  }

  /** A name without a dot is its own extension. */
  lemma {:induction false} ExtensionOfDotlessName(name: string)
    requires '.' !in name
    ensures Extension(name) == name
  {
    if name != [] {
      var init := name[..|name| - 1];
      assert name == init + [name[|name| - 1]];
      assert forall c :: c in init ==> c in name;
      ExtensionOfDotlessName(init);
    }
  }

  /** Whatever precedes the last dot, the extension is what follows it. */
  lemma {:induction false} ExtensionAfterLastDot(prefix: string, ext: string)
    requires '.' !in ext
    ensures Extension(prefix + "." + ext) == ext
  {
    var s := prefix + "." + ext;
    if ext != [] {
      assert s[|s| - 1] == ext[|ext| - 1];
      assert s[..|s| - 1] == prefix + "." + ext[..|ext| - 1];
      ExtensionAfterLastDot(prefix, ext[..|ext| - 1]);
      assert ext == ext[..|ext| - 1] + [ext[|ext| - 1]];
    }
  }

  /** The extension of a concrete name, found by splitting it at its last dot. */
  lemma SplitAtDot(name: string, stem: string, ext: string)
    requires name == stem + "." + ext && '.' !in ext
    ensures Extension(name) == ext
  {
    ExtensionAfterLastDot(stem, ext);
  }

  function DigitChar(d: nat): (c: char)
    requires d < 10
    ensures '0' <= c <= '9'
  {
    "0123456789"[d]
  }

  function DigitValue(c: char): (d: nat)
    requires '0' <= c <= '9'
    ensures d < 10 && DigitChar(d) == c
  {
    (c as int - '0' as int) as nat
  }

  /** A timestamp rendered in decimal, as a template literal renders `Date.now()`. */
  function Decimal(n: nat): (s: string)
    ensures |s| >= 1
    ensures forall i :: 0 <= i < |s| ==> '0' <= s[i] <= '9'
  {
    if n < 10 then [DigitChar(n)] else Decimal(n / 10) + [DigitChar(n % 10)]
  }

  /** The number a string of decimal digits denotes. */
  function DecimalValue(s: string): (n: nat)
    requires forall i :: 0 <= i < |s| ==> '0' <= s[i] <= '9'
  {
    if s == [] then 0 else DecimalValue(s[..|s| - 1]) * 10 + DigitValue(s[|s| - 1])
  }

  /** Reading the rendered timestamp back gives the timestamp. */
  lemma {:induction false} DecimalRoundTrip(n: nat)
    ensures DecimalValue(Decimal(n)) == n
  {
    if n >= 10 {
      var s, init := Decimal(n), Decimal(n / 10);
      assert s == init + [DigitChar(n % 10)];
      assert s[..|s| - 1] == init;
      assert DigitValue(s[|s| - 1]) == n % 10;
      DecimalRoundTrip(n / 10);
    }
  }

  /** The template `${folder}/${stamp}_${suffix}.${ext}` the upload helpers fill in. */
  function PathTemplate(folder: string, stamp: string, suffix: string, ext: string): (path: string)
    ensures folder + "/" <= path
  {
    folder + "/" + stamp + "_" + suffix + "." + ext
  }

  /** Right after `folder/` a filled template holds the stamp, closed by `_`. */
  lemma StampFollowsFolder(folder: string, stamp: string, suffix: string, ext: string)
    ensures var p, o := PathTemplate(folder, stamp, suffix, ext), |folder| + 1;
      o + |stamp| < |p| && p[o..o + |stamp|] == stamp && p[o + |stamp|] == '_'
  {
    var p, o := PathTemplate(folder, stamp, suffix, ext), |folder| + 1;
    var rest := "_" + suffix + "." + ext;
    assert p == (folder + "/") + stamp + rest;
    assert p[o..] == stamp + rest;
    assert p[o..][..|stamp|] == stamp;
    assert p[o..][|stamp|] == '_';
  }

  /**
   * The storage path of an upload: `now` is the clock reading, rendered in decimal, `suffix`
   * the random base-36 text, and the original file name contributes its extension.
   */
  function StoragePath(folder: string, now: nat, suffix: string, fileName: string): (path: string)
    ensures folder + "/" <= path
    ensures Extension(path) == Extension(fileName)
  {
    ExtensionAfterLastDot(folder + "/" + Decimal(now) + "_" + suffix, Extension(fileName));
    PathTemplate(folder, Decimal(now), suffix, Extension(fileName))
  }

  /** Filled templates with different stamps differ, as long as no stamp holds a `_`. */
  lemma DistinctStampsDistinctTemplates(folder: string, stamp1: string, stamp2: string,
                                        suffix1: string, suffix2: string, ext1: string, ext2: string)
    requires stamp1 != stamp2 && '_' !in stamp1 && '_' !in stamp2
    ensures PathTemplate(folder, stamp1, suffix1, ext1) != PathTemplate(folder, stamp2, suffix2, ext2)
  {
    var p1 := PathTemplate(folder, stamp1, suffix1, ext1);
    var p2 := PathTemplate(folder, stamp2, suffix2, ext2);
    StampFollowsFolder(folder, stamp1, suffix1, ext1);
    StampFollowsFolder(folder, stamp2, suffix2, ext2);
    var o := |folder| + 1;
    if |stamp1| < |stamp2| {
      assert p2[o..o + |stamp2|][|stamp1|] == stamp2[|stamp1|];
      assert p1[o + |stamp1|] != p2[o + |stamp1|];
    } else if |stamp2| < |stamp1| {
      assert p1[o..o + |stamp1|][|stamp2|] == stamp1[|stamp2|];
      assert p1[o + |stamp2|] != p2[o + |stamp2|];
    } else {
      var i :| 0 <= i < |stamp1| && stamp1[i] != stamp2[i];
      assert p1[o..o + |stamp1|][i] == stamp1[i] && p2[o..o + |stamp2|][i] == stamp2[i];
      assert p1[o + i] != p2[o + i];
    }
  }

  /**
   * Two uploads into one folder whose clock readings differ get different paths, whatever the
   * random suffixes and original names.
   */
  lemma DistinctStampsDistinctPaths(folder: string, now1: nat, now2: nat,
                                    suffix1: string, suffix2: string,
                                    name1: string, name2: string)
    requires now1 != now2
    ensures StoragePath(folder, now1, suffix1, name1) != StoragePath(folder, now2, suffix2, name2)
  {
    DecimalRoundTrip(now1);
    DecimalRoundTrip(now2);
    DistinctStampsDistinctTemplates(folder, Decimal(now1), Decimal(now2), suffix1, suffix2,
                                    Extension(name1), Extension(name2));
  }

  // ---------------------------------------------------------------------------
  // Content types and upload requests
  // ---------------------------------------------------------------------------

  function LowerChar(c: char): (l: char)
  {
    if 'A' <= c <= 'Z' then (c as int + 32) as char else c
  }

  /** `toLowerCase` on the ASCII letters. */
  function Lower(s: string): (r: string)
    ensures |r| == |s|
    ensures forall i :: 0 <= i < |s| ==> r[i] == LowerChar(s[i])
  {
    if s == [] then [] else [LowerChar(s[0])] + Lower(s[1..])
  }

  const VideoMp4: string := "video/mp4"
  const VideoWebm: string := "video/webm"
  const VideoQuicktime: string := "video/quicktime"

  /** The content type a video upload falls back to when nothing else decides. */
  const DefaultVideoType: string := VideoMp4

  /**
   * The content type a video upload is labelled with: the browser's own type when it gave
   * one, otherwise the type the lower-cased extension names, otherwise MP4.
   */
  function VideoContentType(fileType: string, fileName: string): (mime: string)
    ensures mime != ""
    ensures fileType != "" ==> mime == fileType
    ensures fileType == "" ==> mime == VideoMp4 || mime == VideoWebm || mime == VideoQuicktime
  {
    if fileType != "" then fileType else MimeForExtension(Lower(Extension(fileName)))
  }

  /** The type a lower-cased extension names: WebM, QuickTime, and MP4 for everything else. */
  function MimeForExtension(ext: string): (mime: string)
    ensures mime == VideoMp4 || mime == VideoWebm || mime == VideoQuicktime
    ensures |mime| > 0
  {
    match ext
    case "webm" => VideoWebm
    case "mov" => VideoQuicktime
    case _ => DefaultVideoType
  }

  /** The three extensions the inference recognises are different strings. */
  lemma KnownExtensionsDiffer()
    ensures "mp4" != "webm" && "mp4" != "mov" && "webm" != "mov"
  {
    assert "mp4"[1] != "mov"[1];
  }

  /** The MIME inference of `uploadVideoToStorage`: `mimeType` reassigned through a chain of `if`s. */
  method InferVideoMimeType(fileType: string, fileName: string) returns (contentType: string)
    ensures contentType == VideoContentType(fileType, fileName)
  {
    var mimeType := fileType;
    if mimeType == "" {
      var ext := Lower(Extension(fileName));
      KnownExtensionsDiffer();
      assert VideoContentType(fileType, fileName) == MimeForExtension(ext);
      if ext == "mp4" { mimeType := VideoMp4; }
      if ext == "webm" { mimeType := VideoWebm; }
      if ext == "mov" { mimeType := VideoQuicktime; }
    }
    contentType := if mimeType != "" then mimeType else DefaultVideoType;
  }

  /** The extension decides case-insensitively: an untyped `CLIP.MOV` is QuickTime. */
  lemma UpperCaseExtensionRecognised()
    ensures VideoContentType("", "CLIP.MOV") == "video/quicktime"
  {
    SplitAtDot("CLIP.MOV", "CLIP", "MOV");
    assert Lower("MOV") == "mov";
  }

  /** A file the browser reports with a type and a name. */
  datatype VideoFile = VideoFile(name: string, mimeType: string)

  /** The arguments of a storage `upload` call: where to, the file sent, and the upload options. */
  datatype UploadRequest<File> = UploadRequest(
    bucket: string, path: string, body: File, contentType: string,
    cacheControl: string, upsert: bool)

  /** The bucket both upload helpers default to. */
  const DefaultBucket := "Gallery"
  /** The folder `uploadImageToStorage` defaults to. */
  const DefaultImageFolder := "images"
  /** The folder `uploadVideoToStorage` defaults to. */
  const DefaultVideoFolder := "videos"

  /**
   * The `upload` call `uploadImageToStorage` makes, given the clock and the random suffix, or
   * `None` when compression rejects and nothing is uploaded.
   */
  function ImageUpload(file: ImageFile, bucket: string, folder: string, now: nat, suffix: string): (req: Option<UploadRequest<ImageFile>>)
    ensures req.Some? <==> HasPixels(Compressed(file, MaxWidth, MaxHeight))
    ensures req.Some? ==> req.value.bucket == bucket && req.value.cacheControl == "3600" && !req.value.upsert
    ensures req.Some? ==> req.value.body == Compressed(file, MaxWidth, MaxHeight)
    ensures req.Some? ==> req.value.contentType == JpegType && req.value.body.name == file.name
    ensures req.Some? ==> req.value.path == StoragePath(folder, now, suffix, file.name)
    ensures req.Some? ==> folder + "/" <= req.value.path && Extension(req.value.path) == Extension(file.name)
  {
    match CompressOutcome(file, MaxWidth, MaxHeight)
    case None => None
    case Some(body) =>
      Some(UploadRequest(bucket, StoragePath(folder, now, suffix, file.name), body, JpegType, "3600", false))
  }

  /**
   * What is stored is the resized image: no larger than the original on either side, with the
   * governing side within its default bound.
   */
  lemma StoredImageWithinBounds(file: ImageFile, bucket: string, folder: string, now: nat, suffix: string)
    requires ImageUpload(file, bucket, folder, now, suffix).Some?
    ensures ImageUpload(file, bucket, folder, now, suffix).value.body.width <= file.width
    ensures ImageUpload(file, bucket, folder, now, suffix).value.body.height <= file.height
    ensures file.width > file.height ==> ImageUpload(file, bucket, folder, now, suffix).value.body.width <= MaxWidth
    ensures file.width <= file.height ==> ImageUpload(file, bucket, folder, now, suffix).value.body.height <= MaxHeight
  {
    FitBoundsGoverningSide(file.width, file.height, MaxWidth, MaxHeight);
  }

  /**
   * A 3841x1 strip fits to 1920x0 under the default bounds, so nothing is uploaded; one pixel
   * narrower, its height rounds to 1 and the upload goes ahead.
   */
  lemma ThinImageNotUploaded(now: nat, suffix: string)
    ensures ImageUpload(ImageFile("strip.png", "image/png", 3841, 1), DefaultBucket, DefaultImageFolder, now, suffix) == None
    ensures ImageUpload(ImageFile("strip.png", "image/png", 3840, 1), DefaultBucket, DefaultImageFolder, now, suffix).Some?
  {
    FitZeroSide(3841, 1, MaxWidth, MaxHeight);
    FitZeroSide(3840, 1, MaxWidth, MaxHeight);
  }

  /** The `upload` call `uploadVideoToStorage` makes, given the clock and the random suffix. */
  function VideoUpload(file: VideoFile, bucket: string, folder: string, now: nat, suffix: string): (req: UploadRequest<VideoFile>)
    ensures req.bucket == bucket && req.cacheControl == "3600" && !req.upsert
    ensures req.body == file && req.contentType != ""
    ensures req.contentType == VideoContentType(file.mimeType, file.name)
    ensures req.path == StoragePath(folder, now, suffix, file.name)
    ensures folder + "/" <= req.path && Extension(req.path) == Extension(file.name)
  {
    UploadRequest(bucket, StoragePath(folder, now, suffix, file.name), file,
                  VideoContentType(file.mimeType, file.name), "3600", false)
  }

  /**
   * An image upload keeps the original extension in its path but is always labelled JPEG:
   * a PNG named `rose.png` is stored at a `.png` path with type `image/jpeg`.
   */
  lemma ImageLabelIgnoresExtension(now: nat, suffix: string)
    ensures ImageUpload(ImageFile("rose.png", "image/png", 800, 600), DefaultBucket, DefaultImageFolder, now, suffix).Some?
    ensures Extension(ImageUpload(ImageFile("rose.png", "image/png", 800, 600), DefaultBucket, DefaultImageFolder, now, suffix).value.path) == "png"
    ensures ImageUpload(ImageFile("rose.png", "image/png", 800, 600), DefaultBucket, DefaultImageFolder, now, suffix).value.contentType == "image/jpeg"
  {
    SplitAtDot("rose.png", "rose", "png");
  }
}

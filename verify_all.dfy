/** The page-comparison verifier (verify-all.js): it fetches every page of the site
    from the origin and from the mirror and compares status, title and length, or, in
    visual mode, compares full-page screenshots cropped to their shared top-left region
    and counts the differing pixels. */
module VerifyAll {
  import opened Text
  import opened JsNumber

  const OriginBase := "https://www.avir.com"
  const MirrorBase := "https://avirwebtest.pages.dev"

  /** Pages per batch: 3 in visual mode, 10 otherwise. */
  function BatchSize(visual: bool): (n: nat)
    ensures n > 0
  {
    if visual then 3 else 10
  }

  /** The page list: the trimmed contents of the paths file split into lines. */
  function ReadPaths(file: string): (paths: seq<string>)
    ensures |paths| >= 1
    ensures Join(paths, '\n') == JsTrim(file)
    ensures forall i :: 0 <= i < |paths| ==> '\n' !in paths[i]
  {
    JoinSplit(JsTrim(file), '\n');
    Split(JsTrim(file), '\n')
  }

  /** An empty paths file still yields one (empty) path. */
  lemma ReadPathsEmpty()
    ensures ReadPaths("") == [""]
  {
    assert JsTrim("") == "";
  }

  // ---- clean URLs ----

  lemma IndexSuffixIsHtmlSuffix(path: string)
    requires EndsWith(path, "index.html")
    ensures EndsWith(path, ".html")
  {
    var k := |path| - 10;
    assert path[|path| - 5..] == path[k..][5..];
  }

  /** The clean URL path of a page file: a trailing directory index loses its file
      name, any other page loses its extension, anything else is kept. Only the first
      occurrence of the text is replaced, which is the trailing one when it occurs
      nowhere else. */
  function UrlPath(path: string): (u: string)
    ensures !EndsWith(path, ".html") ==> u == path
    ensures EndsWith(path, "index.html") && Find(path, "/index.html") == Some(|path| - 11)
      ==> u == path[..|path| - 10]
    ensures EndsWith(path, ".html") && !EndsWith(path, "index.html")
      && Find(path, ".html") == Some(|path| - 5)
      ==> u == path[..|path| - 5]
  {
    if EndsWith(path, "index.html") then
      IndexSuffixIsHtmlSuffix(path);
      DirectoryIndex(path);
      ReplaceFirst(path, "/index.html", "/")
    else if EndsWith(path, ".html") then ReplaceFirst(path, ".html", "")
    else path
  }

  lemma DirectoryIndex(path: string)
    ensures Find(path, "/index.html") == Some(|path| - 11)
      ==> ReplaceFirst(path, "/index.html", "/") == path[..|path| - 10]
  {
    if Find(path, "/index.html") == Some(|path| - 11) {
      var i := |path| - 11;
      assert path[i..i + 11] == "/index.html";
      assert path[i] == '/';
      assert path[..i] + "/" == path[..i + 1];
    }
  }

  /** A bare `index.html` without a leading slash is not rewritten at all. */
  lemma UrlPathBareIndex()
    ensures UrlPath("index.html") == "index.html"
  {
    assert !Contains("index.html", "/index.html");
  }

  lemma Mismatch(s: string, p: string, j: nat, k: nat)
    requires k < |p| && j + k < |s| && s[j + k] != p[k]
    ensures !OccursAt(s, p, j)
  {
  }

  function OriginUrl(path: string): string { OriginBase + UrlPath(path) }

  function MirrorUrl(path: string): string { MirrorBase + UrlPath(path) }

  // ---- content check ----

  /** What fetching a URL produced: an error message, or a response with its status,
      body length and the text of its first title element. */
  datatype Fetch = Failed(message: string) | Response(status: int, length: nat, title: string)

  /** `result.error` is truthy: an empty message counts as no error. */
  predicate ErrorSet(f: Fetch) {
    f.Failed? && f.message != []
  }

  /** `result.status`, which is undefined on a failed fetch. */
  function StatusOf(f: Fetch): Option<int> {
    if f.Response? then Some(f.status) else None
  }

  datatype Status = PASS | FAIL | WARN | SKIP | ERROR

  function Abs(x: int): nat { if x < 0 then -x else x }

  /** The lengths differ by more than 30% of the origin length. With an empty origin
      any non-empty mirror differs (the quotient is Infinity) and an empty mirror does
      not (the quotient is NaN). */
  predicate LengthMismatch(o: nat, m: nat) {
    10 * Abs(o - m) > 3 * o
  }

  /** `Math.abs(o - m) / o > 0.3` evaluated with JavaScript numbers is the integer rule. */
  lemma {:induction false} LengthRule(o: nat, m: nat)
    ensures Gt(Div(FromInt(Abs(o - m)), FromInt(o)), Fin(0.3)) <==> LengthMismatch(o, m)
  {
    if o > 0 {
      var a := Abs(o - m) as real;
      var b := o as real;
      assert Div(FromInt(Abs(o - m)), FromInt(o)) == Fin(a / b);
      RatioCompare(a, b, 0.3);
      assert 10.0 * a == (10 * Abs(o - m)) as real;
      assert 3.0 * b == (3 * o) as real;
    }
  }

  /** Both sides answered 200 with the same title. */
  predicate BothOk(origin: Fetch, mirror: Fetch) {
    origin.Response? && mirror.Response? && origin.status == 200 && mirror.status == 200
    && origin.title == mirror.title
  }

  /** The content check of one page. */
  function VerifyPath(origin: Fetch, mirror: Fetch): (s: Status)
    ensures s == ERROR <==> ErrorSet(origin) || ErrorSet(mirror)
    ensures s == SKIP <==> (!ErrorSet(origin) && !ErrorSet(mirror)
      && StatusOf(origin) != Some(200) && StatusOf(origin) == StatusOf(mirror))
    ensures s == PASS <==> (!ErrorSet(origin) && !ErrorSet(mirror) && BothOk(origin, mirror)
      && !LengthMismatch(origin.length, mirror.length))
    ensures s == WARN <==> (!ErrorSet(origin) && !ErrorSet(mirror) && BothOk(origin, mirror)
      && LengthMismatch(origin.length, mirror.length))
    ensures s == FAIL <==> (!ErrorSet(origin) && !ErrorSet(mirror)
      && ((StatusOf(origin) != Some(200) && StatusOf(origin) != StatusOf(mirror))
          || (StatusOf(origin) == Some(200) && StatusOf(mirror) != Some(200))
          || (StatusOf(origin) == Some(200) == StatusOf(mirror) && origin.title != mirror.title)))
  {
    if ErrorSet(origin) || ErrorSet(mirror) then ERROR
    else if StatusOf(origin) != Some(200) then
      if StatusOf(origin) != StatusOf(mirror) then FAIL else SKIP
    else if StatusOf(mirror) != Some(200) then FAIL
    else if origin.title != mirror.title then FAIL
    else
      var o := origin.length;
      var m := mirror.length;
      LengthRule(o, m);
      if Gt(Div(FromInt(Abs(o - m)), FromInt(o)), Fin(0.3)) then WARN else PASS
  }

  /** The content check of one path, fetching with net. */
  datatype PathResult = PathResult(path: string, status: Status)

  function CheckPath(net: string -> Fetch, path: string): PathResult {
    PathResult(path, VerifyPath(net(OriginUrl(path)), net(MirrorUrl(path))))
  }

  // ---- screenshot names ----

  /** Every slash becomes a hyphen, then one leading hyphen is dropped. */
  function SanitizeFilename(path: string): (r: string)
    ensures '/' !in r
    ensures var drop := if |path| > 0 && (path[0] == '/' || path[0] == '-') then 1 else 0;
      |r| == |path| - drop
      && forall i :: 0 <= i < |r| ==> r[i] == (if path[i + drop] == '/' then '-' else path[i + drop])
  {
    var q := MapChar(path, '/', '-');
    MapCharRemoves(path, '/', '-');
    if |q| > 0 && q[0] == '-' then q[1..] else q
  }

  /** Distinct paths can share a screenshot name. */
  lemma SanitizeCollides()
    ensures SanitizeFilename("/a/b.html") == SanitizeFilename("/a-b.html") == "a-b.html"
  {
  }

  // ---- images and the crop ----

  newtype byte = x: int | 0 <= x < 256

  /** A decoded PNG: RGBA bytes, row-major, four per pixel. The decoded buffer is only
      read, so it is a value. */
  datatype Image = Image(width: nat, height: nat, data: seq<byte>)

  predicate WellFormed(img: Image) {
    |img.data| == img.width * img.height * 4
  }

  /** Byte offset of channel c of pixel (x, y) in an image w pixels wide. */
  function Px(y: nat, x: nat, c: nat, w: nat): nat {
    (y * w + x) * 4 + c
  }

  /** The bytes taken by y rows of w pixels, y * w * 4, counted row by row so that the
      proofs about the crop stay linear. */
  function Rows(y: nat, w: nat): nat {
    if y == 0 then 0 else Rows(y - 1, w) + w * 4
  }

  lemma {:induction false} RowsIsProduct(y: nat, w: nat)
    ensures Rows(y, w) == y * w * 4 == w * y * 4
  {
    if y > 0 {
      RowsIsProduct(y - 1, w);
      assert y * w * 4 == (y - 1) * w * 4 + w * 4;
    }
  }

  lemma {:induction false} RowsMono(y: nat, h: nat, w: nat)
    requires y <= h
    ensures Rows(y, w) <= Rows(h, w)
    decreases h
  {
    if y < h {
      RowsMono(y, h - 1, w);
    }
  }

  lemma {:induction false} RowsWider(h: nat, w: nat, srcW: nat)
    requires w <= srcW
    ensures Rows(h, w) <= Rows(h, srcW)
  {
    if h > 0 {
      RowsWider(h - 1, w, srcW);
    }
  }

  /** Channel c of pixel x in row y lies in row y, x * 4 + c bytes after its start. */
  lemma PixelInRow(y: nat, x: nat, c: nat, w: nat)
    requires x < w && c < 4
    ensures Px(y, x, c, w) == Rows(y, w) + x * 4 + c
    ensures Px(y, x, c, w) < Rows(y + 1, w)
  {
    RowsIsProduct(y, w);
  }

  /** The size of a well-formed image, counted in rows. */
  lemma ImageRows(img: Image)
    requires WellFormed(img)
    ensures Rows(img.height, img.width) == |img.data|
  {
    RowsIsProduct(img.height, img.width);
  }

  /** The bytes of the top-left w x h region of an image srcW pixels wide, row by row. */
  function CropOf(data: seq<byte>, srcW: nat, w: nat, h: nat): (r: seq<byte>)
    requires w <= srcW && Rows(h, srcW) <= |data|
    ensures |r| == Rows(h, w)
    decreases h
  {
    if h == 0 then []
    else
      CropOf(data, srcW, w, h - 1) + data[Rows(h - 1, srcW)..Rows(h - 1, srcW) + w * 4]
  }

  /** The top-left w x h region of a decoded image. */
  function Cropped(img: Image, w: nat, h: nat): (r: seq<byte>)
    requires WellFormed(img) && w <= img.width && h <= img.height
    ensures |r| == w * h * 4
  {
    ImageRows(img);
    RowsMono(h, img.height, img.width);
    RowsIsProduct(h, w);
    CropOf(img.data, img.width, w, h)
  }

  /** Each byte of the crop is the byte of the same pixel and channel in the source. */
  lemma {:induction false} CropPixel(data: seq<byte>, srcW: nat, w: nat, h: nat, y: nat, x: nat, c: nat)
    requires w <= srcW && Rows(h, srcW) <= |data|
    requires y < h && x < w && c < 4
    ensures Px(y, x, c, srcW) < |data|
    ensures Px(y, x, c, w) < Rows(h, w)
    ensures CropOf(data, srcW, w, h)[Px(y, x, c, w)] == data[Px(y, x, c, srcW)]
    decreases h
  {
    PixelInRow(y, x, c, w);
    PixelInRow(y, x, c, srcW);
    RowsMono(y + 1, h, w);
    RowsMono(y + 1, h, srcW);
    if y < h - 1 {
      RowsMono(y + 1, h - 1, w);
      CropPixel(data, srcW, w, h - 1, y, x, c);
    }
  }

  /** Cropping to the full size reproduces the data. */
  lemma {:induction false} CropFull(data: seq<byte>, w: nat, h: nat)
    requires Rows(h, w) <= |data|
    ensures CropOf(data, w, w, h) == data[..Rows(h, w)]
    decreases h
  {
    if h > 0 {
      CropFull(data, w, h - 1);
      assert data[..Rows(h, w)] == data[..Rows(h - 1, w)] + data[Rows(h - 1, w)..Rows(h, w)];
    }
  }

  /** Copy the top-left w x h region of img into a new buffer, row by row. */
  method Crop(img: Image, w: nat, h: nat) returns (dst: array<byte>)
    requires WellFormed(img) && w <= img.width && h <= img.height
    ensures dst.Length == w * h * 4
    ensures dst[..] == Cropped(img, w, h)
  {
    var src := img.data;
    var srcW := img.width;
    ImageRows(img);
    RowsMono(h, img.height, srcW);
    RowsIsProduct(h, w);
    dst := new byte[w * h * 4];
    var y := 0;
    while y < h
      invariant 0 <= y <= h
      invariant Rows(y, w) <= dst.Length && Rows(y, srcW) <= |src|
      invariant forall k :: 0 <= k < Rows(y, w) ==> dst[k] == CropOf(src, srcW, w, y)[k]
    {
      RowsMono(y + 1, h, w);
      RowsMono(y + 1, h, srcW);
      CopyRow(src, Rows(y, srcW), dst, Rows(y, w), w);
      y := y + 1;
    }
  }

  /** The inner loop of the crop: copy one row, four channels per pixel. The row starts
      at sbase in the source and at base in the crop, so the source's indices
      `(y * width + x) * 4` are the row start plus 4x (PixelInRow). */
  method CopyRow(src: seq<byte>, sbase: nat, dst: array<byte>, base: nat, w: nat)
    requires sbase + w * 4 <= |src| && base + w * 4 <= dst.Length
    modifies dst
    ensures forall k :: 0 <= k < base ==> dst[k] == old(dst[k])
    ensures forall k :: base <= k < base + w * 4 ==> dst[k] == src[sbase + (k - base)]
  {
    var x := 0;
    while x < w
      invariant 0 <= x <= w
      invariant forall k :: 0 <= k < base ==> dst[k] == old(dst[k])
      invariant forall k :: base <= k < base + x * 4 ==> dst[k] == src[sbase + (k - base)]
    {
      var srcIdx := sbase + x * 4;
      var dstIdx := base + x * 4;
      dst[dstIdx] := src[srcIdx];
      dst[dstIdx + 1] := src[srcIdx + 1];
      dst[dstIdx + 2] := src[srcIdx + 2];
      dst[dstIdx + 3] := src[srcIdx + 3];
      x := x + 1;
    }
  }

  // ---- the visual comparison ----

  function Min(a: nat, b: nat): nat { if a < b then a else b }

  /** A page failed the visual comparison when more than this per cent of its pixels differ. */
  const DiffThreshold: real := 1.0

  /** The 1% rule on numDiff differing pixels out of total: exactly 1% passes. With no
      pixels at all the percentage is NaN, which does not exceed the threshold. */
  function VisualStatus(numDiff: nat, total: nat): (s: Status)
    ensures s == FAIL <==> 100 * numDiff > total
    ensures s == PASS <==> 100 * numDiff <= total
  {
    PercentRule(numDiff, total);
    if Gt(Mul(Div(FromInt(numDiff), FromInt(total)), FromInt(100)), Fin(DiffThreshold)) then FAIL else PASS
  }

  /** `(numDiff / total) * 100 > 1.0` with JavaScript numbers is the integer rule. */
  lemma PercentRule(numDiff: nat, total: nat)
    ensures Gt(Mul(Div(FromInt(numDiff), FromInt(total)), FromInt(100)), Fin(DiffThreshold))
        <==> 100 * numDiff > total
  {
    if total > 0 {
      Percent(numDiff, total);
      RatioCompare(100.0 * (numDiff as real), total as real, DiffThreshold);
    }
  }

  /** The two full-page screenshots of a page, or the message of whatever was thrown
      while navigating to and capturing them. */
  datatype Shots = Captured(prod: Image, test: Image) | Threw(message: string)

  predicate ShotsWellFormed(shots: Shots) {
    shots.Captured? ==> WellFormed(shots.prod) && WellFormed(shots.test)
  }

  /** The differing-pixel count of two RGBA buffers of the given width and height. */
  type Pixelmatch = (seq<byte>, seq<byte>, nat, nat) -> nat

  /** The note added when the screenshots' sizes differ: both sizes and the compared size. */
  datatype DimensionNote = NoNote | Note(w1: nat, h1: nat, w2: nat, h2: nat, minW: nat, minH: nat)

  datatype VisualResult =
    | Compared(path: string, status: Status, diffPixels: nat, width: nat, height: nat,
               note: DimensionNote, diffWritten: bool)
    | Errored(path: string, message: string)

  function VisualStatusOf(r: VisualResult): Status {
    if r.Compared? then r.status else ERROR
  }

  /** What the visual check of one page yields. */
  function VisualOutcome(path: string, shots: Shots, pixelmatch: Pixelmatch): (r: VisualResult)
    requires ShotsWellFormed(shots)
    ensures r.path == path
    ensures r.Errored? <==> shots.Threw?
    ensures shots.Threw? ==> r.message == shots.message
    ensures r.Compared? ==>
      var a, b := shots.prod, shots.test;
      && r.width == Min(a.width, b.width) && r.height == Min(a.height, b.height)
      && (r.note.Note? <==> a.width != b.width || a.height != b.height)
      && (r.note.Note? ==> r.note == Note(a.width, a.height, b.width, b.height, r.width, r.height))
      && (r.status == FAIL <==> 100 * r.diffPixels > r.width * r.height)
      && (r.status == PASS <==> 100 * r.diffPixels <= r.width * r.height)
      && (r.diffWritten <==> r.status == FAIL)
  {
    match shots
    case Threw(msg) => Errored(path, msg)
    case Captured(a, b) =>
      var w := Min(a.width, b.width);
      var h := Min(a.height, b.height);
      var differ := a.width != b.width || a.height != b.height;
      var d1 := if differ then Cropped(a, w, h) else a.data;
      var d2 := if differ then Cropped(b, w, h) else b.data;
      var n := pixelmatch(d1, d2, w, h);
      var status := VisualStatus(n, w * h);
      Compared(path, status, n, w, h,
               if differ then Note(a.width, a.height, b.width, b.height, w, h) else NoNote,
               status == FAIL)
  }

  /** When the sizes agree the source compares the decoded buffers as they are; they
      are exactly what the crop would have produced. */
  lemma SameSizeNeedsNoCrop(img: Image)
    requires WellFormed(img)
    ensures Cropped(img, img.width, img.height) == img.data
  {
    ImageRows(img);
    CropFull(img.data, img.width, img.height);
  }

  /** The visual check of one page: crop both screenshots to the shared region when
      their sizes differ, count the differing pixels and apply the 1% rule. */
  method VisualVerifyPath(path: string, shots: Shots, pixelmatch: Pixelmatch) returns (r: VisualResult)
    requires ShotsWellFormed(shots)
    ensures r == VisualOutcome(path, shots, pixelmatch)
  {
    if shots.Threw? {
      return Errored(path, shots.message);
    }
    var img1, img2 := shots.prod, shots.test;
    var minWidth := Min(img1.width, img2.width);
    var minHeight := Min(img1.height, img2.height);
    var data1 := img1.data;
    var data2 := img2.data;
    var note := NoNote;
    if img1.width != img2.width || img1.height != img2.height {
      note := Note(img1.width, img1.height, img2.width, img2.height, minWidth, minHeight);
      var cropped1 := Crop(img1, minWidth, minHeight);
      var cropped2 := Crop(img2, minWidth, minHeight);
      data1 := cropped1[..];
      data2 := cropped2[..];
    }
    var numDiffPixels := pixelmatch(data1, data2, minWidth, minHeight);
    var status := VisualStatus(numDiffPixels, minWidth * minHeight);
    r := Compared(path, status, numDiffPixels, minWidth, minHeight, note, status == FAIL);
  }

  // ---- batches, summaries and exit codes ----

  function Ceil(n: nat, size: nat): nat
    requires size > 0
  {
    (n + size - 1) / size
  }

  lemma MulLess(x: int, y: int, b: int)
    requires b > 0 && x * b < y * b
    ensures x < y
  {
  }

  /** b batches of the given size cover n items with the last one non-empty. */
  lemma CeilBatches(n: nat, size: nat, b: nat)
    requires size > 0 && b * size >= n && (b == 0 || (b - 1) * size < n)
    ensures b == Ceil(n, size)
  {
    var q := (n + size - 1) / size;
    var r := (n + size - 1) % size;
    assert n + size - 1 == q * size + r && 0 <= r < size;
    assert q * size < (b + 1) * size;
    MulLess(q, b + 1, size);
    if b > 0 {
      assert b * size == (b - 1) * size + size;
      assert b * size < (q + 1) * size;
      MulLess(b, q + 1, size);
    }
  }

  /** i is the start of batch number `batches`, and every batch taken so far was
      non-empty. */
  predicate Batched(i: nat, batches: nat, size: nat, n: nat) {
    i == batches * size && (batches > 0 ==> (batches - 1) * size < n)
  }

  /** The bookkeeping of one more batch. */
  lemma BatchAdvance(i: nat, batches: nat, size: nat, n: nat)
    requires size > 0 && Batched(i, batches, size, n) && i < n
    ensures Batched(i + size, batches + 1, size, n)
  {
  }

  /** When the batches have run past the end, their number is the ceiling. */
  lemma BatchesDone(i: nat, batches: nat, size: nat, n: nat)
    requires size > 0 && Batched(i, batches, size, n) && i >= n
    ensures batches == Ceil(n, size)
  {
    CeilBatches(n, size, batches);
  }

  /** results holds the content check of each of the first |results| paths. */
  predicate CheckedPrefix(results: seq<PathResult>, paths: seq<string>, net: string -> Fetch) {
    |results| <= |paths| && forall k :: 0 <= k < |results| ==> results[k] == CheckPath(net, paths[k])
  }

  lemma CheckedExtend(results: seq<PathResult>, rs: seq<PathResult>, paths: seq<string>, net: string -> Fetch, i: nat)
    requires CheckedPrefix(results, paths, net) && |results| == i && i + |rs| <= |paths|
    requires forall j :: 0 <= j < |rs| ==> rs[j] == CheckPath(net, paths[i + j])
    ensures CheckedPrefix(results + rs, paths, net)
  {
    forall k | 0 <= k < |results + rs| ensures (results + rs)[k] == CheckPath(net, paths[k]) {
      if k >= i {
        assert (results + rs)[k] == rs[k - i];
      }
    }
  }

  /** results holds the visual check of each of the first |results| paths. */
  predicate ComparedPrefix(results: seq<VisualResult>, paths: seq<string>, captures: seq<Shots>, pixelmatch: Pixelmatch)
    requires |captures| == |paths|
    requires forall k :: 0 <= k < |captures| ==> ShotsWellFormed(captures[k])
  {
    |results| <= |paths|
    && forall k :: 0 <= k < |results| ==> results[k] == VisualOutcome(paths[k], captures[k], pixelmatch)
  }

  lemma ComparedExtend(results: seq<VisualResult>, rs: seq<VisualResult>, paths: seq<string>,
                       captures: seq<Shots>, pixelmatch: Pixelmatch, i: nat)
    requires |captures| == |paths|
    requires forall k :: 0 <= k < |captures| ==> ShotsWellFormed(captures[k])
    requires ComparedPrefix(results, paths, captures, pixelmatch) && |results| == i && i + |rs| <= |paths|
    requires forall j :: 0 <= j < |rs| ==>
      rs[j] == VisualOutcome(paths[i + j], captures[i + j], pixelmatch)
    ensures ComparedPrefix(results + rs, paths, captures, pixelmatch)
  {
    forall k | 0 <= k < |results + rs|
      ensures (results + rs)[k] == VisualOutcome(paths[k], captures[k], pixelmatch)
    {
      if k >= i {
        assert (results + rs)[k] == rs[k - i];
      }
    }
  }

  /** The results of one batch of content checks (`Promise.all(batch.map(verifyPath))`). */
  method CheckBatch(paths: seq<string>, i: nat, end: nat, net: string -> Fetch) returns (rs: seq<PathResult>)
    requires i <= end <= |paths|
    ensures |rs| == end - i
    ensures forall j :: 0 <= j < |rs| ==> rs[j] == CheckPath(net, paths[i + j])
  {
    var batch := paths[i..end];
    rs := seq(|batch|, j requires 0 <= j < |batch| => CheckPath(net, batch[j]));
  }

  /** Content mode: each batch of ten paths is checked with all its fetches in flight
      at once, and the batch's results are appended in order. */
  method RunContent(paths: seq<string>, net: string -> Fetch) returns (results: seq<PathResult>, batches: nat)
    ensures |results| == |paths|
    ensures forall k :: 0 <= k < |paths| ==> results[k] == CheckPath(net, paths[k])
    ensures batches == Ceil(|paths|, BatchSize(false))
  {
    var size := BatchSize(false);
    results := [];
    batches := 0;
    var i := 0;
    while i < |paths|
      invariant Batched(i, batches, size, |paths|)
      invariant |results| == Min(i, |paths|)
      invariant CheckedPrefix(results, paths, net)
    {
      var end := Min(i + size, |paths|);
      var batchResults := CheckBatch(paths, i, end, net);
      CheckedExtend(results, batchResults, paths, net, i);
      results := results + batchResults;
      BatchAdvance(i, batches, size, |paths|);
      i := i + size;
      batches := batches + 1;
    }
    BatchesDone(i, batches, size, |paths|);
  }

  /** The results of one batch of visual checks, one page after the other. */
  method VisualBatch(paths: seq<string>, captures: seq<Shots>, i: nat, end: nat, pixelmatch: Pixelmatch)
    returns (rs: seq<VisualResult>)
    requires i <= end <= |paths| == |captures|
    requires forall k :: 0 <= k < |captures| ==> ShotsWellFormed(captures[k])
    ensures |rs| == end - i
    ensures forall j :: 0 <= j < |rs| ==> rs[j] == VisualOutcome(paths[i + j], captures[i + j], pixelmatch)
  {
    var batch := paths[i..end];
    rs := [];
    for j := 0 to |batch|
      invariant |rs| == j
      invariant forall k :: 0 <= k < j ==> rs[k] == VisualOutcome(paths[i + k], captures[i + k], pixelmatch)
    {
      var result := VisualVerifyPath(batch[j], captures[i + j], pixelmatch);
      rs := rs + [result];
    }
  }

  /** Visual mode: batches of three paths, each path checked in turn; captures[k]
      is what capturing the screenshots of paths[k] produced. */
  method RunVisual(paths: seq<string>, captures: seq<Shots>, pixelmatch: Pixelmatch)
    returns (results: seq<VisualResult>, batches: nat)
    requires |captures| == |paths|
    requires forall k :: 0 <= k < |captures| ==> ShotsWellFormed(captures[k])
    ensures |results| == |paths|
    ensures forall k :: 0 <= k < |paths| ==> results[k] == VisualOutcome(paths[k], captures[k], pixelmatch)
    ensures batches == Ceil(|paths|, BatchSize(true))
  {
    var size := BatchSize(true);
    results := [];
    batches := 0;
    var i := 0;
    while i < |paths|
      invariant Batched(i, batches, size, |paths|)
      invariant |results| == Min(i, |paths|)
      invariant ComparedPrefix(results, paths, captures, pixelmatch)
    {
      var end := Min(i + size, |paths|);
      var batchResults := VisualBatch(paths, captures, i, end, pixelmatch);
      ComparedExtend(results, batchResults, paths, captures, pixelmatch, i);
      results := results + batchResults;
      BatchAdvance(i, batches, size, |paths|);
      i := i + size;
      batches := batches + 1;
    }
    BatchesDone(i, batches, size, |paths|);
  }

  /** How many results carry status s (`results.filter(...).length`). */
  function Count(rs: seq<Status>, s: Status): (n: nat)
    ensures n <= |rs|
  {
    if rs == [] then 0 else Count(rs[..|rs| - 1], s) + (if rs[|rs| - 1] == s then 1 else 0)
  }

  lemma {:induction false} CountPositive(rs: seq<Status>, s: Status)
    ensures Count(rs, s) > 0 <==> s in rs
  {
    if rs != [] {
      CountPositive(rs[..|rs| - 1], s);
      assert rs == rs[..|rs| - 1] + [rs[|rs| - 1]];
    }
  }

  /** Every result is counted under exactly one status. */
  lemma {:induction false} CountsPartition(rs: seq<Status>)
    ensures Count(rs, PASS) + Count(rs, FAIL) + Count(rs, WARN) + Count(rs, SKIP) + Count(rs, ERROR) == |rs|
  {
    if rs != [] {
      CountsPartition(rs[..|rs| - 1]);
    }
  }

  function Statuses(rs: seq<PathResult>): (ss: seq<Status>)
    ensures |ss| == |rs| && forall k :: 0 <= k < |rs| ==> ss[k] == rs[k].status
  {
    seq(|rs|, k requires 0 <= k < |rs| => rs[k].status)
  }

  function VisualStatuses(rs: seq<VisualResult>): (ss: seq<Status>)
    ensures |ss| == |rs| && forall k :: 0 <= k < |rs| ==> ss[k] == VisualStatusOf(rs[k])
  {
    seq(|rs|, k requires 0 <= k < |rs| => VisualStatusOf(rs[k]))
  }

  /** Content mode exits with 1 exactly when some page FAILed; errors, warnings and
      skips alone exit with 0. */
  function ContentExitCode(rs: seq<PathResult>): (code: int)
    ensures code == 0 || code == 1
    ensures code == 1 <==> exists k :: 0 <= k < |rs| && rs[k].status == FAIL
  {
    var ss := Statuses(rs);
    CountPositive(ss, FAIL);
    if Count(ss, FAIL) > 0 then 1 else 0
  }

  /** Visual mode exits with 1 exactly when some page FAILed or ERRORed. */
  function VisualExitCode(rs: seq<VisualResult>): (code: int)
    ensures code == 0 || code == 1
    ensures code == 1 <==> exists k :: 0 <= k < |rs| && VisualStatusOf(rs[k]) in {FAIL, ERROR}
  {
    var ss := VisualStatuses(rs);
    CountPositive(ss, FAIL);
    CountPositive(ss, ERROR);
    if Count(ss, FAIL) > 0 || Count(ss, ERROR) > 0 then 1 else 0
  }

  /** A visual run only ever reports PASS, FAIL or ERROR. */
  lemma VisualStatusesOnly(paths: seq<string>, captures: seq<Shots>, pixelmatch: Pixelmatch, rs: seq<VisualResult>)
    requires |captures| == |paths| == |rs|
    requires forall k :: 0 <= k < |captures| ==> ShotsWellFormed(captures[k])
    requires forall k :: 0 <= k < |paths| ==> rs[k] == VisualOutcome(paths[k], captures[k], pixelmatch)
    ensures Count(VisualStatuses(rs), WARN) == 0 && Count(VisualStatuses(rs), SKIP) == 0
  {
    var ss := VisualStatuses(rs);
    CountPositive(ss, WARN);
    CountPositive(ss, SKIP);
    forall k | 0 <= k < |ss| ensures ss[k] != WARN && ss[k] != SKIP {
      var r := VisualOutcome(paths[k], captures[k], pixelmatch);
      assert rs[k] == r;
    }
  }
}

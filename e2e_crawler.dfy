/** The end-to-end screenshot comparator (scripts/e2e/e2e-crawler.js): it crawls every
    manifest page on the live and on the deployed site, saves a full-page screenshot
    of each, compares the two screenshots of every page, and summarises the result. */
module E2ECrawler {
  import opened Text
  import opened JsNumber

  const LiveSite := "https://www.avir.com"
  const DeployedSite := "https://avirwebtest.pages.dev"

  // ---- names ----

  /** Slashes become underscores; only the empty path falls back to `homepage`. */
  function PageName(path: string): (name: string)
    ensures path == [] ==> name == "homepage"
    ensures path != [] ==> (|name| == |path| && '/' !in name
      && forall i :: 0 <= i < |path| ==> name[i] == (if path[i] == '/' then '_' else path[i]))
  {
    MapCharRemoves(path, '/', '_');
    var r := MapChar(path, '/', '_');
    if r == [] then "homepage" else r
  }

  lemma PageNameRoot()
    ensures PageName("/") == "_"
  {
  }

  function ScreenshotName(pageName: string, isLive: bool): string {
    pageName + (if isLive then "-live.png" else "-deployed.png")
  }

  function DiffName(pageName: string): string {
    pageName + "-diff.png"
  }

  /** A character the URL parser copies into a pathname unchanged: ASCII letters and
      digits and the punctuation outside the path percent-encode set. Excluded are
      space, quotes, angle brackets, braces, the backtick, `^` and non-ASCII characters,
      which are percent-encoded; `\`, which becomes `/`; `?` and `#`, which end the
      path; and `%`, since a `%2e` segment counts as a dot segment. */
  predicate PlainUrlChar(c: char) {
    || 'a' <= c <= 'z' || 'A' <= c <= 'Z' || '0' <= c <= '9'
    || c in "-._~!$&'()*+,;=:@/"
  }

  /** A `.` or `..` segment starts at k: the URL parser would resolve it away. */
  predicate DotSegmentAt(path: string, k: nat) {
    || (k < |path| && path[k] == '.' && (k + 1 == |path| || path[k + 1] == '/'))
    || (k + 1 < |path| && path[k] == '.' && path[k + 1] == '.' && (k + 2 == |path| || path[k + 2] == '/'))
  }

  /** A manifest path that `new URL(site + path).pathname` gives back unchanged: it
      starts with `/`, holds only plain characters, and no segment is `.` or `..`. */
  predicate PlainPath(path: string) {
    && |path| > 0 && path[0] == '/'
    && (forall i :: 0 <= i < |path| ==> PlainUrlChar(path[i]))
    && (forall i :: 0 <= i < |path| && path[i] == '/' ==> !DotSegmentAt(path, i + 1))
  }

  /** The pathname of the URL site + path, for the empty path and for a plain path. */
  function Pathname(path: string): (p: string)
    requires path == [] || PlainPath(path)
    ensures |p| > 0 && p[0] == '/'
    ensures path != [] ==> p == path
  {
    if path == [] then "/" else path
  }

  /** The request handler names a page after the URL pathname, which always starts with
      a slash, so its `homepage` fallback never applies; the comparator names it after
      the manifest path. For a plain path the two names agree; for the empty manifest
      path they differ, and that page's screenshots are never found. */
  lemma HandlerAndComparatorNames(path: string)
    requires path == [] || PlainPath(path)
    ensures PageName(Pathname(path)) != "homepage"
    ensures path != [] ==> PageName(Pathname(path)) == PageName(path)
    ensures path == [] ==> PageName(Pathname(path)) == "_" != PageName(path)
  {
    var n := PageName(Pathname(path));
    assert n[0] == '_';
  }

  /** A plain path: the site's own page paths are of this kind. */
  lemma PlainPathExample()
    ensures PlainPath("/about-us/team")
  {
  }

  // ---- the request queue ----

  datatype Request = Request(url: string, uniqueKey: string, labelName: string)

  function LiveRequest(path: string): Request {
    Request(LiveSite + path, "live-" + path, "live")
  }

  function DeployedRequest(path: string): Request {
    Request(DeployedSite + path, "deployed-" + path, "deployed")
  }

  /** The requests queued for the manifest paths, two per path, in manifest order. */
  function QueueOf(manifest: seq<string>): (q: seq<Request>)
    ensures |q| == 2 * |manifest|
  {
    if manifest == [] then []
    else
      var last := manifest[|manifest| - 1];
      QueueOf(manifest[..|manifest| - 1]) + [LiveRequest(last), DeployedRequest(last)]
  }

  predicate UniqueKeys(q: seq<Request>) {
    forall i, j :: 0 <= i < j < |q| ==> q[i].uniqueKey != q[j].uniqueKey
  }

  predicate Distinct(m: seq<string>) {
    forall i, j :: 0 <= i < j < |m| ==> m[i] != m[j]
  }

  /** Every queued key is the live or the deployed key of a manifest path. */
  lemma {:induction false} QueueKeys(manifest: seq<string>, r: Request)
    requires r in QueueOf(manifest)
    ensures exists i :: 0 <= i < |manifest| && (r == LiveRequest(manifest[i]) || r == DeployedRequest(manifest[i]))
  {
    var init := manifest[..|manifest| - 1];
    var last := manifest[|manifest| - 1];
    if r in QueueOf(init) {
      QueueKeys(init, r);
      var i :| 0 <= i < |init| && (r == LiveRequest(init[i]) || r == DeployedRequest(init[i]));
      assert init[i] == manifest[i];
    } else {
      assert r == LiveRequest(last) || r == DeployedRequest(last);
    }
  }

  lemma PrefixKeysDiffer(p: string, q: string)
    ensures "live-" + p != "deployed-" + q
    ensures "live-" + p == "live-" + q ==> p == q
    ensures "deployed-" + p == "deployed-" + q ==> p == q
  {
    assert ("live-" + p)[0] != ("deployed-" + q)[0];
    if "live-" + p == "live-" + q {
      assert p == ("live-" + p)[5..];
    }
    if "deployed-" + p == "deployed-" + q {
      assert p == ("deployed-" + p)[9..];
    }
  }

  /** Distinct manifest paths give distinct request keys, so the crawler's
      de-duplication by key drops none of them. */
  lemma {:induction false} QueueUniqueKeys(manifest: seq<string>)
    requires Distinct(manifest)
    ensures UniqueKeys(QueueOf(manifest))
  {
    if manifest != [] {
      var init := manifest[..|manifest| - 1];
      var last := manifest[|manifest| - 1];
      QueueUniqueKeys(init);
      var q0 := QueueOf(init);
      var q := QueueOf(manifest);
      PrefixKeysDiffer(last, last);
      forall i | 0 <= i < |q0|
        ensures q0[i].uniqueKey != LiveRequest(last).uniqueKey
        ensures q0[i].uniqueKey != DeployedRequest(last).uniqueKey
      {
        QueueKeys(init, q0[i]);
        var k :| 0 <= k < |init| && (q0[i] == LiveRequest(init[k]) || q0[i] == DeployedRequest(init[k]));
        assert init[k] == manifest[k] != last;
        PrefixKeysDiffer(init[k], last);
        PrefixKeysDiffer(last, init[k]);
      }
      forall i, j | 0 <= i < j < |q| ensures q[i].uniqueKey != q[j].uniqueKey {
        if j < |q0| {
          assert q[i] == q0[i] && q[j] == q0[j];
        } else if i < |q0| {
          assert q[i] == q0[i];
        }
      }
    }
  }

  // ---- classification ----

  /** `(numDiffPixels / (width * height)) * 100`. */
  function DiffPercentage(numDiff: nat, width: nat, height: nat): Num {
    Mul(Div(FromInt(numDiff), FromInt(width * height)), FromInt(100))
  }

  /** The (0, 5)% band counted as an improvement. */
  predicate IsImprovement(d: Num) {
    Gt(d, Fin(0.0)) && Lt(d, Fin(5.0))
  }

  predicate Passed(d: Num) {
    Lt(d, Fin(1.0)) || IsImprovement(d)
  }

  /** For a defined, non-negative percentage, passing is being below 5%; NaN fails. */
  lemma PassedBand(d: Num)
    requires d.NaN? || d.PosInf? || (d.Fin? && d.v >= 0.0)
    ensures Passed(d) <==> d.Fin? && d.v < 5.0
    ensures IsImprovement(d) <==> d.Fin? && 0.0 < d.v < 5.0
  {
  }

  /** The classification in integers: with an empty compared region the percentage is
      NaN or Infinity and the page fails. */
  lemma {:induction false} DiffRule(numDiff: nat, width: nat, height: nat)
    ensures var d := DiffPercentage(numDiff, width, height);
      && (Passed(d) <==> width * height > 0 && 20 * numDiff < width * height)
      && (IsImprovement(d) <==> width * height > 0 && 0 < numDiff && 20 * numDiff < width * height)
      && (Lt(d, Fin(1.0)) <==> width * height > 0 && 100 * numDiff < width * height)
  {
    var t := width * height;
    if t > 0 {
      Percent(numDiff, t);
      var a := 100.0 * (numDiff as real);
      RatioCompare(a, t as real, 5.0);
      RatioCompare(a, t as real, 1.0);
      RatioCompare(a, t as real, 0.0);
    }
  }

  // ---- comparisons ----

  /** The two screenshots as loaded (their sizes and the differing-pixel count of the
      pair scaled to the shared size), or the message of what was thrown. */
  datatype ImageLoad =
    | Images(liveWidth: nat, liveHeight: nat, deployedWidth: nat, deployedHeight: nat, diffPixels: nat)
    | LoadError(message: string)

  datatype Comparison =
    | Scored(pagePath: string, diffPixels: nat, diffPercentage: Num, passed: bool,
             isImprovement: bool, width: nat, height: nat)
    | Errored(pagePath: string, error: string)

  /** `c.passed`, which is false for an errored entry. */
  predicate PassedOf(c: Comparison) {
    c.Scored? && c.passed
  }

  /** `c.isImprovement`, which is undefined (falsy) for an errored entry. */
  predicate ImprovementOf(c: Comparison) {
    c.Scored? && c.isImprovement
  }

  function Min(a: nat, b: nat): nat { if a < b then a else b }

  function Score(path: string, load: ImageLoad): (c: Comparison)
    requires load.Images?
    ensures c.Scored? && c.pagePath == path && c.diffPixels == load.diffPixels
    ensures c.width == Min(load.liveWidth, load.deployedWidth)
    ensures c.height == Min(load.liveHeight, load.deployedHeight)
    ensures c.passed <==> c.width * c.height > 0 && 20 * c.diffPixels < c.width * c.height
    ensures c.isImprovement <==> c.width * c.height > 0 && 0 < c.diffPixels && 20 * c.diffPixels < c.width * c.height
  {
    var w := Min(load.liveWidth, load.deployedWidth);
    var h := Min(load.liveHeight, load.deployedHeight);
    var d := DiffPercentage(load.diffPixels, w, h);
    DiffRule(load.diffPixels, w, h);
    Scored(path, load.diffPixels, d, Passed(d), IsImprovement(d), w, h)
  }

  /** The entry for one manifest path: none when either screenshot is missing. */
  function CompareOne(path: string, present: set<string>, loads: string -> ImageLoad): (cs: seq<Comparison>)
    ensures |cs| <= 1
    ensures |cs| == 1 <==> (ScreenshotName(PageName(path), true) in present
                          && ScreenshotName(PageName(path), false) in present)
    ensures forall c :: c in cs ==> c.pagePath == path
  {
    var name := PageName(path);
    if ScreenshotName(name, true) !in present || ScreenshotName(name, false) !in present then []
    else match loads(path)
      case LoadError(msg) => [Errored(path, msg)]
      case Images(_, _, _, _, _) => [Score(path, loads(path))]
  }

  /** The comparisons for the manifest, in manifest order. */
  function ComparisonsOf(manifest: seq<string>, present: set<string>, loads: string -> ImageLoad): (cs: seq<Comparison>)
    ensures |cs| <= |manifest|
    ensures forall c :: c in cs ==> c.pagePath in manifest
  {
    if manifest == [] then []
    else
      var init := manifest[..|manifest| - 1];
      var cs0 := ComparisonsOf(init, present, loads);
      assert forall c :: c in cs0 ==> c.pagePath in manifest by {
        forall c | c in cs0 ensures c.pagePath in manifest {
          var i :| 0 <= i < |init| && init[i] == c.pagePath;
          assert manifest[i] == init[i];
        }
      }
      cs0 + CompareOne(manifest[|manifest| - 1], present, loads)
  }

  /** With no screenshot on disk no page is compared at all. */
  lemma {:induction false} NothingPresent(manifest: seq<string>, loads: string -> ImageLoad)
    ensures ComparisonsOf(manifest, {}, loads) == []
  {
    if manifest != [] {
      NothingPresent(manifest[..|manifest| - 1], loads);
    }
  }

  // ---- labels ----

  datatype Symbol = CheckMark | UpArrow | Cross

  /** The symbol printed on the console for a scored page. */
  function ConsoleSymbol(d: Num): Symbol {
    if Lt(d, Fin(1.0)) then CheckMark else if IsImprovement(d) then UpArrow else Cross
  }

  datatype Label = LabelImproved | LabelPassed | LabelFailed

  /** The status label of the HTML report. */
  function HtmlLabel(c: Comparison): Label {
    if ImprovementOf(c) then LabelImproved else if PassedOf(c) then LabelPassed else LabelFailed
  }

  function LabelOfSymbol(s: Symbol): Label {
    match s
    case CheckMark => LabelPassed
    case UpArrow => LabelImproved
    case Cross => LabelFailed
  }

  /** The console and the report tell the same story for a scored page except in the
      band 0 < d < 1, which the console marks as passing and the report as improved. */
  lemma LabelsDisagree(path: string, load: ImageLoad)
    requires load.Images?
    ensures var c := Score(path, load);
      var d := c.diffPercentage;
      (HtmlLabel(c) != LabelOfSymbol(ConsoleSymbol(d)) <==>
        c.width * c.height > 0 && 0 < 100 * c.diffPixels < c.width * c.height)
  {
    var c := Score(path, load);
    DiffRule(c.diffPixels, c.width, c.height);
  }

  // ---- summary and exit code ----

  function CountPassed(cs: seq<Comparison>): (n: nat)
    ensures n <= |cs|
  {
    if cs == [] then 0 else CountPassed(cs[..|cs| - 1]) + (if PassedOf(cs[|cs| - 1]) then 1 else 0)
  }

  function CountFailed(cs: seq<Comparison>): (n: nat)
    ensures n <= |cs|
  {
    if cs == [] then 0 else CountFailed(cs[..|cs| - 1]) + (if !PassedOf(cs[|cs| - 1]) then 1 else 0)
  }

  function CountImprovements(cs: seq<Comparison>): (n: nat)
    ensures n <= |cs|
  {
    if cs == [] then 0 else CountImprovements(cs[..|cs| - 1]) + (if ImprovementOf(cs[|cs| - 1]) then 1 else 0)
  }

  /** The running sum of the defined percentages, left to right from 0. */
  function SumDefined(cs: seq<Comparison>): Num {
    if cs == [] then Fin(0.0)
    else
      var last := cs[|cs| - 1];
      if last.Scored? then Add(SumDefined(cs[..|cs| - 1]), last.diffPercentage)
      else SumDefined(cs[..|cs| - 1])
  }

  datatype Summary = Summary(totalPages: nat, testedPages: Num, passedPages: nat, failedPages: nat,
                             improvements: nat, averageDiffPercentage: Num)

  /** The report summary; the average divides by the number of all comparisons. */
  function Summarize(manifestLength: nat, resultsLength: nat, cs: seq<Comparison>): (s: Summary)
    ensures s.passedPages + s.failedPages == |cs|
    ensures s.improvements <= |cs|
    ensures cs == [] ==> s.averageDiffPercentage.NaN?
  {
    PassedPlusFailed(cs);
    Summary(manifestLength, Div(FromInt(resultsLength), FromInt(2)), CountPassed(cs), CountFailed(cs),
            CountImprovements(cs), Div(SumDefined(cs), FromInt(|cs|)))
  }

  lemma {:induction false} PassedPlusFailed(cs: seq<Comparison>)
    ensures CountPassed(cs) + CountFailed(cs) == |cs|
  {
    if cs != [] {
      PassedPlusFailed(cs[..|cs| - 1]);
    }
  }

  /** One page with no defined percentage makes the sum, and the average, NaN... */
  lemma {:induction false} SumNaN(cs: seq<Comparison>, k: nat)
    requires k < |cs| && cs[k].Scored? && cs[k].diffPercentage.NaN?
    ensures SumDefined(cs).NaN?
  {
    if k < |cs| - 1 {
      SumNaN(cs[..|cs| - 1], k);
    }
  }

  lemma AverageNaN(manifestLength: nat, resultsLength: nat, cs: seq<Comparison>, k: nat)
    requires k < |cs| && cs[k].Scored? && cs[k].diffPercentage.NaN?
    ensures Summarize(manifestLength, resultsLength, cs).averageDiffPercentage.NaN?
  {
    SumNaN(cs, k);
  }

  /** ...and an errored entry still counts in the denominator: one page 2% apart and
      one that failed to load average to 1%, not 2%. */
  lemma AverageCountsErrors(c: Comparison, e: Comparison)
    requires c.Scored? && c.diffPercentage == Fin(2.0) && e.Errored?
    ensures Summarize(1, 2, [c, e]).averageDiffPercentage == Fin(1.0)
  {
    assert [c, e][..1] == [c];
    assert [c][..0] == [];
    assert SumDefined([c]) == Add(Fin(0.0), Fin(2.0)) == Fin(2.0);
    assert SumDefined([c, e]) == Fin(2.0);
    assert Div(Fin(2.0), FromInt(2)) == Fin(1.0);
  }

  /** The process exits with 1 exactly when some comparison did not pass. */
  function ExitCode(cs: seq<Comparison>): (code: int)
    ensures code == 0 || code == 1
    ensures code == 1 <==> exists k :: 0 <= k < |cs| && !PassedOf(cs[k])
  {
    FailedPositive(cs);
    if CountFailed(cs) > 0 then 1 else 0
  }

  lemma {:induction false} FailedPositive(cs: seq<Comparison>)
    ensures CountFailed(cs) > 0 <==> exists k :: 0 <= k < |cs| && !PassedOf(cs[k])
  {
    if cs != [] {
      var init := cs[..|cs| - 1];
      FailedPositive(init);
      if exists k :: 0 <= k < |init| && !PassedOf(init[k]) {
        var k :| 0 <= k < |init| && !PassedOf(init[k]);
        assert cs[k] == init[k];
      }
      if exists k :: 0 <= k < |cs| && !PassedOf(cs[k]) {
        var k :| 0 <= k < |cs| && !PassedOf(cs[k]);
        if k < |init| {
          assert cs[k] == init[k];
        }
      }
    }
  }

  // ---- the runner ----

  /** What visiting a request's URL produced: the response status (absent when the
      navigation returned no response), or the message of what was thrown. */
  datatype Visit = Visited(response: Option<int>) | VisitError(message: string)

  datatype PageResult = PageResult(pagePath: string, url: string, isLive: bool, statusCode: int, screenshot: string)

  /** The result recorded for a visited page whose URL has the given pathname. */
  function ResultFor(request: Request, pathname: string, response: Option<int>): (r: PageResult)
    ensures r.isLive <==> Contains(request.url, "www.avir.com")
    ensures r.statusCode == (if response.Some? then response.value else 0)
    ensures r.screenshot == ScreenshotName(PageName(pathname), r.isLive)
  {
    var isLive := Contains(request.url, "www.avir.com");
    PageResult(pathname, request.url, isLive, if response.Some? then response.value else 0,
               ScreenshotName(PageName(pathname), isLive))
  }

  class E2ETestRunner {
    var results: seq<PageResult>
    const pageManifest: seq<string>

    constructor(manifest: seq<string>)
      ensures results == [] && pageManifest == manifest
    {
      results := [];
      pageManifest := manifest;
    }

    /** The crawl's request limit is twice the manifest length, exactly the queue size. */
    function MaxRequestsPerCrawl(): nat {
      |pageManifest| * 2
    }

    /** Queue the two requests of every manifest path. */
    method QueueRequests() returns (queue: seq<Request>)
      ensures queue == QueueOf(pageManifest)
      ensures |queue| == MaxRequestsPerCrawl()
    {
      queue := [];
      for i := 0 to |pageManifest|
        invariant queue == QueueOf(pageManifest[..i])
      {
        var path := pageManifest[i];
        assert pageManifest[..i + 1][..i] == pageManifest[..i];
        queue := queue + [LiveRequest(path), DeployedRequest(path)];
      }
      assert pageManifest[..|pageManifest|] == pageManifest;
    }

    /** Handle one crawled request: a successful visit appends its result, a thrown
        error is logged and appends nothing. */
    method HandleRequest(request: Request, pathname: string, visit: Visit)
      modifies this
      ensures visit.Visited? ==> results == old(results) + [ResultFor(request, pathname, visit.response)]
      ensures visit.VisitError? ==> results == old(results)
    {
      if visit.Visited? {
        results := results + [ResultFor(request, pathname, visit.response)];
      }
    }

    /** Compare the screenshot pairs of the manifest pages; present is the set of
        screenshot files on disk and loads(p) what loading and diffing p's pair gives. */
    method CompareScreenshots(present: set<string>, loads: string -> ImageLoad) returns (comparisons: seq<Comparison>)
      ensures comparisons == ComparisonsOf(pageManifest, present, loads)
    {
      comparisons := [];
      for i := 0 to |pageManifest|
        invariant comparisons == ComparisonsOf(pageManifest[..i], present, loads)
      {
        var path := pageManifest[i];
        assert pageManifest[..i + 1][..i] == pageManifest[..i];
        var pageName := PageName(path);
        var livePath := ScreenshotName(pageName, true);
        var deployedPath := ScreenshotName(pageName, false);
        if livePath !in present || deployedPath !in present {
          continue;
        }
        match loads(path)
        case LoadError(msg) =>
          comparisons := comparisons + [Errored(path, msg)];
        case Images(lw, lh, dw, dh, n) =>
          var width := Min(lw, dw);
          var height := Min(lh, dh);
          var diffPercentage := DiffPercentage(n, width, height);
          var isImprovement := IsImprovement(diffPercentage);
          var passed := Lt(diffPercentage, Fin(1.0)) || isImprovement;
          comparisons := comparisons + [Scored(path, n, diffPercentage, passed, isImprovement, width, height)];
      }
      assert pageManifest[..|pageManifest|] == pageManifest;
    }

    /** The report summary of a run. */
    function Report(comparisons: seq<Comparison>): Summary
      reads this
    {
      Summarize(|pageManifest|, |results|, comparisons)
    }
  }
}

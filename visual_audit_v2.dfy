/** The production-site audit (scripts/visual-audit-v2.js): it opens every page listed
    in the paths file, scrolls it from top to bottom, saves a screenshot, records form
    rendering issues, and keeps a tally of audited pages and errors, relaunching the
    browser when it has crashed. */
module VisualAudit {
  import opened Text

  const DefaultSite := "https://www.avir.com"
  const ScrollIncrement := 500

  /** The message text by which a crashed browser session is recognised. */
  const ClosedMarker := ClosedHead + ClosedMiddle + ClosedTail
  const ClosedHead := "Target page, con"
  const ClosedMiddle := "text or browser "
  const ClosedTail := "has been closed"

  /** The audited site: the environment variable when set and non-empty, else production. */
  function TestSite(env: Option<string>): (site: string)
    ensures env.Some? && env.value != [] ==> site == env.value
    ensures env.None? || env.value == [] ==> site == DefaultSite
  {
    if env.Some? && env.value != [] then env.value else DefaultSite
  }

  /** The URL path of a listed page: empty for `index.html`, else a slash and the path
      with its first `.html` removed. */
  function AuditUrlPath(pagePath: string): (u: string)
    ensures pagePath == "index.html" ==> u == []
    ensures pagePath != "index.html" ==> |u| > 0 && u[0] == '/'
    ensures pagePath != "index.html" && !Contains(pagePath, ".html") ==> u == "/" + pagePath
    ensures pagePath != "index.html" && Find(pagePath, ".html") == Some(|pagePath| - 5)
      ==> u == "/" + pagePath[..|pagePath| - 5]
  {
    if pagePath == "index.html" then [] else "/" + ReplaceFirst(pagePath, ".html", "")
  }

  /** Slashes become underscores; the extension is appended. */
  function ScreenshotFilename(pagePath: string): (f: string)
    ensures |f| == |pagePath| + 4 && EndsWith(f, ".png")
    ensures '/' !in f
    ensures forall i :: 0 <= i < |pagePath| ==> f[i] == (if pagePath[i] == '/' then '_' else pagePath[i])
  {
    MapCharRemoves(pagePath, '/', '_');
    var name := MapChar(pagePath, '/', '_');
    assert (name + ".png")[|name|..] == ".png";
    name + ".png"
  }

  // ---- scrolling ----

  /** The scroll targets of a full-page scroll: 0, 500, 1000, ... while within
      scrollHeight - viewportHeight, and finally back to 0. */
  method FullPageScroll(scrollHeight: int, viewportHeight: int) returns (scrolls: seq<int>)
    ensures |scrolls| >= 1 && scrolls[|scrolls| - 1] == 0
    ensures forall i :: 0 <= i < |scrolls| - 1 ==>
      scrolls[i] == ScrollIncrement * i && scrolls[i] <= scrollHeight - viewportHeight
    ensures ScrollIncrement * (|scrolls| - 1) > scrollHeight - viewportHeight
  {
    var maxScroll := scrollHeight - viewportHeight;
    scrolls := [];
    var position := 0;
    while position <= maxScroll
      invariant position == ScrollIncrement * |scrolls|
      invariant position <= maxScroll + ScrollIncrement || scrolls == []
      invariant forall i :: 0 <= i < |scrolls| ==> scrolls[i] == ScrollIncrement * i && scrolls[i] <= maxScroll
      decreases maxScroll - position
    {
      scrolls := scrolls + [position];
      position := position + ScrollIncrement;
    }
    scrolls := scrolls + [0];
  }

  /** The number of positions visited is floor(max / 500) + 1, or none for a page
      shorter than the viewport. */
  lemma ScrollCount(n: nat, maxScroll: int)
    requires forall i :: 0 <= i < n ==> ScrollIncrement * i <= maxScroll
    requires ScrollIncrement * n > maxScroll
    ensures n == if maxScroll < 0 then 0 else maxScroll / ScrollIncrement + 1
  {
    if maxScroll >= 0 {
      assert n > 0;
      assert ScrollIncrement * (n - 1) <= maxScroll;
      var q := maxScroll / ScrollIncrement;
      assert ScrollIncrement * q <= maxScroll < ScrollIncrement * (q + 1);
    } else {
      assert ScrollIncrement * 0 > maxScroll;
    }
  }

  // ---- forms ----

  /** A form whose markup still shows raw Webflow attributes, or a bare post form, or
      nothing at all, is reported as not rendered. */
  const PageIdAttr := "data-wf-page-id"
  const ElementIdAttr := "data-wf-element-id"
  const PostMethod := "method=\"post\""

  predicate HasRawPattern(html: string) {
    Contains(html, PageIdAttr) || Contains(html, ElementIdAttr)
    || (Contains(html, PostMethod) && |html| < 100)
  }

  /** Every character is white space, which is when `html.trim()` is empty
      (BlankIffTrimEmpty). */
  predicate Blank(html: string) {
    forall i :: 0 <= i < |html| ==> JsSpace(html[i])
  }

  lemma BlankIffTrimEmpty(html: string)
    ensures |JsTrim(html)| == 0 <==> Blank(html)
  {
    var l := TrimStart(html, JsSpace);
    var r := TrimEnd(l, JsSpace);
    assert JsTrim(html) == r;
  }

  predicate FormIssue(html: string) {
    HasRawPattern(html) || Blank(html)
  }

  /** What checkForms() records for a form with an issue. */
  datatype FormIssueRecord = FormIssueRecord(hasRawHtml: bool, htmlLength: nat)

  /** The records of the forms with an issue, in page order. */
  function FormIssues(forms: seq<string>): (issues: seq<FormIssueRecord>)
    ensures |issues| <= |forms|
  {
    if forms == [] then []
    else
      var html := forms[|forms| - 1];
      FormIssues(forms[..|forms| - 1])
        + (if FormIssue(html) then [FormIssueRecord(HasRawPattern(html), |html|)] else [])
  }

  /** The loop over the forms of the page, inspecting each one's inner HTML. */
  method CheckForms(forms: seq<string>) returns (issues: seq<FormIssueRecord>)
    ensures issues == FormIssues(forms)
  {
    issues := [];
    for i := 0 to |forms|
      invariant issues == FormIssues(forms[..i])
    {
      var html := forms[i];
      var hasRawPattern := HasRawPattern(html);
      assert forms[..i + 1][..i] == forms[..i];
      BlankIffTrimEmpty(html);
      if hasRawPattern || |JsTrim(html)| == 0 {
        issues := issues + [FormIssueRecord(hasRawPattern, |html|)];
      }
    }
    assert forms[..|forms|] == forms;
  }

  /** A page's forms yield no record exactly when none of them has an issue. */
  lemma {:induction false} NoIssuesIffClean(forms: seq<string>)
    ensures FormIssues(forms) == [] <==> forall i :: 0 <= i < |forms| ==> !FormIssue(forms[i])
  {
    if forms != [] {
      var init := forms[..|forms| - 1];
      NoIssuesIffClean(init);
      assert forall i :: 0 <= i < |init| ==> init[i] == forms[i];
    }
  }

  /** Every record describes one of the forms, which has an issue. */
  lemma {:induction false} IssuesDescribeForms(forms: seq<string>)
    ensures forall r :: r in FormIssues(forms) ==>
      exists i :: 0 <= i < |forms| && FormIssue(forms[i])
        && r == FormIssueRecord(HasRawPattern(forms[i]), |forms[i]|)
  {
    if forms != [] {
      var init := forms[..|forms| - 1];
      IssuesDescribeForms(init);
      assert forall i :: 0 <= i < |init| ==> init[i] == forms[i];
    }
  }

  // ---- the page list and the command line ----

  /** Keep the lines whose trimmed text is non-empty; the lines themselves are kept
      as they are. */
  function NonBlank(lines: seq<string>): (pages: seq<string>)
    ensures |pages| <= |lines|
    ensures forall p :: p in pages <==> p in lines && JsTrim(p) != []
  {
    if lines == [] then []
    else
      var rest := NonBlank(lines[1..]);
      assert forall p :: p in lines <==> p == lines[0] || p in lines[1..];
      if JsTrim(lines[0]) != [] then [lines[0]] + rest else rest
  }

  function AuditList(file: string): seq<string> {
    NonBlank(Split(file, '\n'))
  }

  /** A blank paths file audits nothing, and a trailing newline adds no page. */
  lemma AuditListTrailingNewline(file: string)
    ensures AuditList(file + "\n") == AuditList(file)
  {
    SplitAppendSeparator(file);
    NonBlankAppendEmpty(Split(file, '\n'));
  }

  lemma {:induction false} SplitAppendSeparator(s: string)
    ensures Split(s + "\n", '\n') == Split(s, '\n') + [[]]
    decreases |s|
  {
    if s == [] {
      assert "" + "\n" == "\n";
    } else {
      assert (s + "\n")[1..] == s[1..] + "\n";
      SplitAppendSeparator(s[1..]);
    }
  }

  lemma {:induction false} NonBlankAppendEmpty(lines: seq<string>)
    ensures NonBlank(lines + [[]]) == NonBlank(lines)
    decreases |lines|
  {
    assert JsTrim([]) == [];
    if lines == [] {
      assert lines + [[]] == [[]];
    } else {
      assert (lines + [[]])[1..] == lines[1..] + [[]];
      NonBlankAppendEmpty(lines[1..]);
    }
  }

  /** `args.find(a => a.startsWith('--page='))?.replace('--page=', '')`. */
  function PageArg(args: seq<string>): (r: Option<string>)
    ensures r.None? <==> forall i :: 0 <= i < |args| ==> !StartsWith(args[i], "--page=")
    ensures r.Some? ==> exists i :: (0 <= i < |args| && StartsWith(args[i], "--page=") && r.value == args[i][7..]
      && forall j :: 0 <= j < i ==> !StartsWith(args[j], "--page="))
  {
    if args == [] then None
    else if StartsWith(args[0], "--page=") then
      assert OccursAt(args[0], "--page=", 0);
      Some(args[0][7..])
    else
      var r := PageArg(args[1..]);
      assert forall i :: 1 <= i < |args| ==> args[1..][i - 1] == args[i];
      FirstPageShift(args, r);
      r
  }

  /** The first `--page=` argument of the tail is the first of the whole list when the
      head is not one. */
  lemma FirstPageShift(args: seq<string>, r: Option<string>)
    requires args != [] && !StartsWith(args[0], "--page=")
    requires r.Some? ==> exists k :: (0 <= k < |args[1..]| && StartsWith(args[1..][k], "--page=")
      && r.value == args[1..][k][7..] && forall j :: 0 <= j < k ==> !StartsWith(args[1..][j], "--page="))
    ensures r.Some? ==> exists i :: (0 <= i < |args| && StartsWith(args[i], "--page=") && r.value == args[i][7..]
      && forall j :: 0 <= j < i ==> !StartsWith(args[j], "--page="))
  {
    if r.Some? {
      var k :| 0 <= k < |args[1..]| && StartsWith(args[1..][k], "--page=")
        && r.value == args[1..][k][7..] && forall j :: 0 <= j < k ==> !StartsWith(args[1..][j], "--page=");
      forall j | 0 <= j < k + 1 ensures !StartsWith(args[j], "--page=") {
        if j > 0 {
          assert args[j] == args[1..][j - 1];
        }
      }
      assert args[k + 1] == args[1..][k];
    }
  }

  /** An empty `--page=` value is falsy and gives the full audit, as does the
      `--page index` form, which is two separate arguments. */
  lemma PageArgForms()
    ensures PageArg(["--page="]) == Some("")
    ensures PageArg(["--page", "index"]) == None
  {
    assert StartsWith("--page=", "--page=");
    assert !StartsWith("--page", "--page=");
    assert !StartsWith("index", "--page=");
  }

  // ---- the audit ----

  datatype AuditError = AuditError(page: string, error: string)

  datatype FormFinding = FormFinding(page: string, count: nat)

  /** What auditing a page produced: the inner HTML of each form on it, or the message
      of what was thrown while navigating, scrolling or capturing. */
  datatype PageOutcome = Audited(forms: seq<string>) | Failed(message: string)

  class AuditRun {
    var browserOpen: bool
    var launches: nat
    var closes: nat
    var currentPage: string
    var pagesAudited: nat
    var errors: seq<AuditError>
    var formIssues: seq<FormFinding>
    var screenshots: seq<string>

    /** The state before init(): nothing launched, nothing audited. */
    constructor()
      ensures !browserOpen && launches == 0 && closes == 0 && currentPage == []
      ensures pagesAudited == 0 && errors == [] && formIssues == [] && screenshots == []
    {
      browserOpen := false;
      launches := 0;
      closes := 0;
      currentPage := [];
      pagesAudited := 0;
      errors := [];
      formIssues := [];
      screenshots := [];
    }

    /** Close any existing browser (a failure to close is swallowed) and launch a new one. */
    method InitBrowser()
      modifies this
      ensures browserOpen && launches == old(launches) + 1
      ensures closes == old(closes) + (if old(browserOpen) then 1 else 0)
      ensures currentPage == old(currentPage) && pagesAudited == old(pagesAudited)
      ensures errors == old(errors) && formIssues == old(formIssues) && screenshots == old(screenshots)
    {
      if browserOpen {
        closes := closes + 1;
      }
      launches := launches + 1;
      browserOpen := true;
    }

    /** Audit one page: success counts it and records its form issues; a failure logs
        one error and relaunches the browser only if it had crashed. The failed page
        is not retried. */
    method AuditPage(pagePath: string, outcome: PageOutcome)
      modifies this
      ensures currentPage == pagePath
      ensures outcome.Audited? ==>
        && pagesAudited == old(pagesAudited) + 1 && errors == old(errors)
        && screenshots == old(screenshots) + [ScreenshotFilename(pagePath)]
        && formIssues == old(formIssues) + FindingsOf(pagePath, outcome.forms)
        && launches == old(launches) && closes == old(closes) && browserOpen == old(browserOpen)
      ensures outcome.Failed? ==>
        && pagesAudited == old(pagesAudited) && errors == old(errors) + [AuditError(pagePath, outcome.message)]
        && screenshots == old(screenshots) && formIssues == old(formIssues)
        && launches == old(launches) + (if Crashed(outcome.message) then 1 else 0)
        && browserOpen == (old(browserOpen) || Crashed(outcome.message))
    {
      currentPage := pagePath;
      match outcome
      case Audited(forms) =>
        RecordAudited(pagePath, forms);
      case Failed(message) =>
        RecordFailed(pagePath, message);
    }

    /** The page was navigated to, scrolled, captured and its forms inspected. */
    method RecordAudited(pagePath: string, forms: seq<string>)
      modifies this
      ensures pagesAudited == old(pagesAudited) + 1 && errors == old(errors)
      ensures screenshots == old(screenshots) + [ScreenshotFilename(pagePath)]
      ensures formIssues == old(formIssues) + FindingsOf(pagePath, forms)
      ensures launches == old(launches) && closes == old(closes) && browserOpen == old(browserOpen)
      ensures currentPage == old(currentPage)
    {
      screenshots := screenshots + [ScreenshotFilename(pagePath)];
      var issues := CheckForms(forms);
      if |issues| > 0 {
        formIssues := formIssues + [FormFinding(pagePath, |issues|)];
      }
      pagesAudited := pagesAudited + 1;
    }

    /** Something was thrown while auditing the page. */
    method RecordFailed(pagePath: string, message: string)
      modifies this
      ensures pagesAudited == old(pagesAudited) && errors == old(errors) + [AuditError(pagePath, message)]
      ensures screenshots == old(screenshots) && formIssues == old(formIssues)
      ensures launches == old(launches) + (if Crashed(message) then 1 else 0)
      ensures browserOpen == (old(browserOpen) || Crashed(message))
      ensures currentPage == old(currentPage)
    {
      errors := errors + [AuditError(pagePath, message)];
      if Crashed(message) {
        InitBrowser();
      }
    }

    /** Audit every listed page in order; a missing paths file audits nothing. */
    method RunAudit(file: Option<string>, outcomes: string -> PageOutcome)
      modifies this
      ensures var pages := if file.Some? then AuditList(file.value) else [];
        && pagesAudited == old(pagesAudited) + CountSucceeded(pages, outcomes)
        && errors == old(errors) + FailuresOf(pages, outcomes)
        && screenshots == old(screenshots) + ScreenshotsOf(pages, outcomes)
        && formIssues == old(formIssues) + FindingsAll(pages, outcomes)
      ensures file.Some? ==> pagesAudited + |errors| == old(pagesAudited) + |old(errors)| + |AuditList(file.value)|
      ensures old(browserOpen) ==> browserOpen
      ensures launches >= old(launches)
    {
      if file.None? {
        return;
      }
      var pages := AuditList(file.value);
      for i := 0 to |pages|
        invariant Tallied(pagesAudited, errors, screenshots, formIssues,
          old(pagesAudited), old(errors), old(screenshots), old(formIssues), pages[..i], outcomes)
        invariant old(browserOpen) ==> browserOpen
        invariant launches >= old(launches)
      {
        ghost var before := (pagesAudited, errors, screenshots, formIssues);
        AuditPage(pages[i], outcomes(pages[i]));
        TalliedStep(before.0, before.1, before.2, before.3, pagesAudited, errors, screenshots, formIssues,
          old(pagesAudited), old(errors), old(screenshots), old(formIssues), pages, i, outcomes);
      }
      assert pages[..|pages|] == pages;
      SucceededPlusFailed(pages, outcomes);
    }

    /** The whole script: initialise, then audit the one `--page=` page without a
        report, or run the full audit and write the report. */
    method Start(args: seq<string>, file: Option<string>, outcomes: string -> PageOutcome)
      returns (reportWritten: bool)
      modifies this
      ensures reportWritten <==> PageArg(args).None? || PageArg(args).value == []
      ensures var pages := AuditTargets(args, file);
        && pagesAudited == old(pagesAudited) + CountSucceeded(pages, outcomes)
        && errors == old(errors) + FailuresOf(pages, outcomes)
        && screenshots == old(screenshots) + ScreenshotsOf(pages, outcomes)
        && formIssues == old(formIssues) + FindingsAll(pages, outcomes)
      ensures browserOpen && launches >= 1
    {
      InitBrowser();
      var pageArg := PageArg(args);
      if pageArg.Some? && pageArg.value != [] {
        SinglePage(pageArg.value, outcomes);
        AuditPage(pageArg.value, outcomes(pageArg.value));
        reportWritten := false;
      } else {
        RunAudit(file, outcomes);
        reportWritten := true;
      }
    }
  }

  /** The pages a run audits: the one `--page=` page when its value is non-empty,
      otherwise the listed pages, none when the paths file is missing. */
  function AuditTargets(args: seq<string>, file: Option<string>): seq<string> {
    var pageArg := PageArg(args);
    if pageArg.Some? && pageArg.value != [] then [pageArg.value]
    else if file.Some? then AuditList(file.value)
    else []
  }

  /** A non-empty `--page=` value is the only page audited, whatever the paths file
      lists; otherwise the list is audited. */
  lemma TargetsOfPageArg(args: seq<string>, file: Option<string>, v: string)
    requires v != [] && exists i :: (0 <= i < |args| && args[i] == "--page=" + v
      && forall j :: 0 <= j < i ==> !StartsWith(args[j], "--page="))
    ensures AuditTargets(args, file) == [v]
  {
    var i :| 0 <= i < |args| && args[i] == "--page=" + v
      && forall j :: 0 <= j < i ==> !StartsWith(args[j], "--page=");
    StartsWithConcat("--page=", v);
    PageArgFirst(args, i);
    assert args[i][7..] == v;
  }

  /** PageArg takes the first argument that starts with `--page=`. */
  lemma PageArgFirst(args: seq<string>, i: nat)
    requires i < |args| && StartsWith(args[i], "--page=")
    requires forall j :: 0 <= j < i ==> !StartsWith(args[j], "--page=")
    ensures PageArg(args) == Some(args[i][7..])
  {
    var r := PageArg(args);
    var k :| 0 <= k < |args| && StartsWith(args[k], "--page=") && r.value == args[k][7..]
      && forall j :: 0 <= j < k ==> !StartsWith(args[j], "--page=");
    assert k == i;
  }

  /** The effect AuditPage has on one page is the fold over that one page. */
  lemma SinglePage(v: string, outcomes: string -> PageOutcome)
    ensures CountSucceeded([v], outcomes) == (if outcomes(v).Audited? then 1 else 0)
    ensures FailuresOf([v], outcomes) == (if outcomes(v).Failed? then [AuditError(v, outcomes(v).message)] else [])
    ensures ScreenshotsOf([v], outcomes) == (if outcomes(v).Audited? then [ScreenshotFilename(v)] else [])
    ensures FindingsAll([v], outcomes) == (if outcomes(v).Audited? then FindingsOf(v, outcomes(v).forms) else [])
  {
    assert [v][..0] == [];
  }

  /** The form-issue entry of a page: one entry with the count, when it is non-zero. */
  function FindingsOf(pagePath: string, forms: seq<string>): (fs: seq<FormFinding>)
    ensures |fs| <= 1 && forall f :: f in fs ==> f.page == pagePath && 0 < f.count <= |forms|
  {
    var count := |FormIssues(forms)|;
    if count > 0 then [FormFinding(pagePath, count)] else []
  }

  /** A page gets a form-issue entry exactly when one of its forms has an issue. */
  lemma FindingIffIssue(pagePath: string, forms: seq<string>)
    ensures FindingsOf(pagePath, forms) != [] <==> exists i :: 0 <= i < |forms| && FormIssue(forms[i])
  {
    NoIssuesIffClean(forms);
  }

  /** An error message that says the browser session has gone away. */
  predicate Crashed(message: string) {
    Contains(message, ClosedMarker)
  }

  function CountSucceeded(pages: seq<string>, outcomes: string -> PageOutcome): (n: nat)
    ensures n <= |pages|
  {
    if pages == [] then 0
    else CountSucceeded(pages[..|pages| - 1], outcomes) + (if outcomes(pages[|pages| - 1]).Audited? then 1 else 0)
  }

  /** The errors logged for the pages, in order. */
  function FailuresOf(pages: seq<string>, outcomes: string -> PageOutcome): (es: seq<AuditError>)
    ensures forall e :: e in es ==> e.page in pages && outcomes(e.page).Failed?
  {
    if pages == [] then []
    else
      var last := pages[|pages| - 1];
      var es0 := FailuresOf(pages[..|pages| - 1], outcomes);
      assert forall p :: p in pages[..|pages| - 1] ==> p in pages;
      es0 + (if outcomes(last).Failed? then [AuditError(last, outcomes(last).message)] else [])
  }

  /** The screenshots taken for the pages, in order: one for each audited page. */
  function ScreenshotsOf(pages: seq<string>, outcomes: string -> PageOutcome): (shots: seq<string>)
    ensures |shots| == CountSucceeded(pages, outcomes)
  {
    if pages == [] then []
    else
      var last := pages[|pages| - 1];
      ScreenshotsOf(pages[..|pages| - 1], outcomes)
        + (if outcomes(last).Audited? then [ScreenshotFilename(last)] else [])
  }

  /** The form-issue entries recorded for the pages, in order. */
  function FindingsAll(pages: seq<string>, outcomes: string -> PageOutcome): (fs: seq<FormFinding>)
    ensures |fs| <= CountSucceeded(pages, outcomes)
    ensures forall f :: f in fs ==> f.page in pages && outcomes(f.page).Audited? && 0 < f.count
  {
    if pages == [] then []
    else
      var last := pages[|pages| - 1];
      var fs0 := FindingsAll(pages[..|pages| - 1], outcomes);
      assert forall p :: p in pages[..|pages| - 1] ==> p in pages;
      fs0 + (if outcomes(last).Audited? then FindingsOf(last, outcomes(last).forms) else [])
  }

  /** A page gets a screenshot exactly when its audit succeeded. */
  lemma {:induction false} ScreenshotIffAudited(pages: seq<string>, outcomes: string -> PageOutcome, p: string)
    requires forall q :: q in pages ==> ScreenshotFilename(q) == ScreenshotFilename(p) ==> q == p
    ensures ScreenshotFilename(p) in ScreenshotsOf(pages, outcomes) <==> p in pages && outcomes(p).Audited?
  {
    if pages != [] {
      var init := pages[..|pages| - 1];
      var last := pages[|pages| - 1];
      assert forall q :: q in init ==> q in pages;
      ScreenshotIffAudited(init, outcomes, p);
      assert p in pages <==> p in init || p == last;
    }
  }

  /** The counters and records after auditing the pages, starting from pa0, es0, ss0, fs0. */
  predicate Tallied(pa: nat, es: seq<AuditError>, ss: seq<string>, fs: seq<FormFinding>,
                    pa0: nat, es0: seq<AuditError>, ss0: seq<string>, fs0: seq<FormFinding>,
                    pages: seq<string>, outcomes: string -> PageOutcome)
  {
    && pa == pa0 + CountSucceeded(pages, outcomes)
    && es == es0 + FailuresOf(pages, outcomes)
    && ss == ss0 + ScreenshotsOf(pages, outcomes)
    && fs == fs0 + FindingsAll(pages, outcomes)
  }

  /** One more page audited as AuditPage does extends the tally by that page. */
  lemma TalliedStep(pa: nat, es: seq<AuditError>, ss: seq<string>, fs: seq<FormFinding>,
                    pa1: nat, es1: seq<AuditError>, ss1: seq<string>, fs1: seq<FormFinding>,
                    pa0: nat, es0: seq<AuditError>, ss0: seq<string>, fs0: seq<FormFinding>,
                    pages: seq<string>, i: nat, outcomes: string -> PageOutcome)
    requires i < |pages| && Tallied(pa, es, ss, fs, pa0, es0, ss0, fs0, pages[..i], outcomes)
    requires outcomes(pages[i]).Audited? ==>
      && pa1 == pa + 1 && es1 == es && ss1 == ss + [ScreenshotFilename(pages[i])]
      && fs1 == fs + FindingsOf(pages[i], outcomes(pages[i]).forms)
    requires outcomes(pages[i]).Failed? ==>
      && pa1 == pa && es1 == es + [AuditError(pages[i], outcomes(pages[i]).message)]
      && ss1 == ss && fs1 == fs
    ensures Tallied(pa1, es1, ss1, fs1, pa0, es0, ss0, fs0, pages[..i + 1], outcomes)
  {
    AuditStep(pages, i, outcomes);
    var o := outcomes(pages[i]);
    ConcatAssoc(es0, FailuresOf(pages[..i], outcomes),
      if o.Failed? then [AuditError(pages[i], o.message)] else []);
    ConcatAssoc(ss0, ScreenshotsOf(pages[..i], outcomes),
      if o.Audited? then [ScreenshotFilename(pages[i])] else []);
    ConcatAssoc(fs0, FindingsAll(pages[..i], outcomes),
      if o.Audited? then FindingsOf(pages[i], o.forms) else []);
  }

  lemma AuditStep(pages: seq<string>, i: nat, outcomes: string -> PageOutcome)
    requires i < |pages|
    ensures CountSucceeded(pages[..i + 1], outcomes)
         == CountSucceeded(pages[..i], outcomes) + (if outcomes(pages[i]).Audited? then 1 else 0)
    ensures FailuresOf(pages[..i + 1], outcomes)
         == FailuresOf(pages[..i], outcomes)
            + (if outcomes(pages[i]).Failed? then [AuditError(pages[i], outcomes(pages[i]).message)] else [])
    ensures ScreenshotsOf(pages[..i + 1], outcomes)
         == ScreenshotsOf(pages[..i], outcomes)
            + (if outcomes(pages[i]).Audited? then [ScreenshotFilename(pages[i])] else [])
    ensures FindingsAll(pages[..i + 1], outcomes)
         == FindingsAll(pages[..i], outcomes)
            + (if outcomes(pages[i]).Audited? then FindingsOf(pages[i], outcomes(pages[i]).forms) else [])
  {
    assert pages[..i + 1][..i] == pages[..i];
  }

  /** Every listed page is either counted as audited or logged as an error. */
  lemma {:induction false} SucceededPlusFailed(pages: seq<string>, outcomes: string -> PageOutcome)
    ensures CountSucceeded(pages, outcomes) + |FailuresOf(pages, outcomes)| == |pages|
  {
    if pages != [] {
      SucceededPlusFailed(pages[..|pages| - 1], outcomes);
    }
  }
}

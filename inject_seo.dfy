/** scripts/inject-seo.js: give one page of the site its SEO head tags. The title,
    description, Open Graph image and canonical URL are read off the page (with
    fallbacks per file name and per directory), a block of meta tags is generated,
    the `<title>` element is replaced, and the block goes before the viewport meta
    tag or, failing that, after `</title>`. A page that already has a canonical link
    is skipped. */
module InjectSeo {
  import opened Text
  import opened Rewrite

  // ---------------------------------------------------------------------------
  // decodeHtmlEntities
  // ---------------------------------------------------------------------------

  /** The entity table, in the order of the object literal (lines 28-36). */
  const Entities: seq<(string, string)> :=
    [("&#x27;", "'"), ("&amp;", "&"), ("&quot;", "\""), ("&lt;", "<"),
     ("&gt;", ">"), ("&#39;", "'"), ("&apos;", "'")]

  /** The entries of table applied one after another, first to last. Each step is
      `split(entity).join(char)`: every leftmost non-overlapping occurrence of the
      entity becomes the character. */
  function DecodeWith(text: string, table: seq<(string, string)>): string
    decreases |table|
  {
    if table == [] then text
    else
      var (entity, ch) := table[|table| - 1];
      ReplaceAll(DecodeWith(text, table[..|table| - 1]), entity, ch)
  }

  function Decoded(text: string): string {
    DecodeWith(text, Entities)
  }

  /** The loop of decodeHtmlEntities, reassigning `decoded` once per entry. */
  method DecodeHtmlEntities(text: string) returns (decoded: string)
    ensures decoded == Decoded(text)
  {
    decoded := text;
    for i := 0 to |Entities|
      invariant decoded == DecodeWith(text, Entities[..i])
    {
      var (entity, ch) := Entities[i];
      assert Entities[..i + 1][..i] == Entities[..i];
      decoded := ReplaceAll(decoded, entity, ch);
    }
    assert Entities[..|Entities|] == Entities;
  }

  /** Every entity of a table starts with `&`. */
  predicate AmpersandLed(table: seq<(string, string)>) {
    forall k :: 0 <= k < |table| ==> table[k].0 != [] && table[k].0[0] == '&'
  }

  /** A text without `&` holds no entity, so no step changes it. */
  lemma {:induction false} DecodeWithoutAmpersand(text: string, table: seq<(string, string)>)
    requires '&' !in text && AmpersandLed(table)
    ensures DecodeWith(text, table) == text
    decreases |table|
  {
    if table != [] {
      var init := table[..|table| - 1];
      assert AmpersandLed(init) by {
        forall k | 0 <= k < |init| ensures init[k].0 != [] && init[k].0[0] == '&' {
          assert init[k] == table[k];
        }
      }
      DecodeWithoutAmpersand(text, init);
      var (entity, ch) := table[|table| - 1];
      CharAbsent(text, entity, 0);
      ReplaceAllAbsent(text, entity, ch);
    }
  }

  /** A string with no `&` is unchanged by decodeHtmlEntities. */
  lemma DecodedWithoutAmpersand(text: string)
    requires '&' !in text
    ensures Decoded(text) == text
  {
    DecodeWithoutAmpersand(text, Entities);
  }

  /** An entity p does not occur in `&` + u when u has no `&` and p differs from
      `&` + u at some position j. */
  lemma LeadingAmpersandOnly(u: string, p: string, j: nat)
    requires p != [] && p[0] == '&' && '&' !in u
    requires 0 < j < |p| && (j > |u| || u[j - 1] != p[j])
    ensures !Contains("&" + u, p)
  {
    var s := "&" + u;
    forall k | 0 <= k <= |s| - |p| ensures !OccursAt(s, p, k) {
      if k > 0 {
        assert s[k..k + |p|][0] == s[k] == u[k - 1];
      } else {
        assert s[..|p|][j] == u[j - 1];
      }
    }
  }

  /** One more entry of the table is one more replacement. */
  lemma DecodeSnoc(text: string, table: seq<(string, string)>, k: nat)
    requires k < |table|
    ensures DecodeWith(text, table[..k + 1]) == ReplaceAll(DecodeWith(text, table[..k]), table[k].0, table[k].1)
  {
    assert table[..k + 1][..k] == table[..k];
  }

  /** The table written out: seven replacements, `&#x27;` first and `&apos;` last. */
  lemma DecodedSteps(text: string)
    ensures Decoded(text) ==
      ReplaceAll(ReplaceAll(ReplaceAll(ReplaceAll(ReplaceAll(ReplaceAll(ReplaceAll(
        text, "&#x27;", "'"), "&amp;", "&"), "&quot;", "\""), "&lt;", "<"),
        "&gt;", ">"), "&#39;", "'"), "&apos;", "'")
  {
    var e := Entities;
    var d0 := ReplaceAll(text, "&#x27;", "'");
    var d1 := ReplaceAll(d0, "&amp;", "&");
    var d2 := ReplaceAll(d1, "&quot;", "\"");
    var d3 := ReplaceAll(d2, "&lt;", "<");
    var d4 := ReplaceAll(d3, "&gt;", ">");
    var d5 := ReplaceAll(d4, "&#39;", "'");
    assert e[..0] == [];
    DecodeSnoc(text, e, 0);
    assert DecodeWith(text, e[..1]) == d0;
    DecodeSnoc(text, e, 1);
    assert DecodeWith(text, e[..2]) == d1;
    DecodeSnoc(text, e, 2);
    assert DecodeWith(text, e[..3]) == d2;
    DecodeSnoc(text, e, 3);
    assert DecodeWith(text, e[..4]) == d3;
    DecodeSnoc(text, e, 4);
    assert DecodeWith(text, e[..5]) == d4;
    DecodeSnoc(text, e, 5);
    assert DecodeWith(text, e[..6]) == d5;
    DecodeSnoc(text, e, 6);
    assert e[..7] == e;
  }

  /** `&#x27;` is decoded before `&amp;`, so the `&#x27;` that `&amp;#x27;` turns
      into is left as it is. */
  lemma AmpersandBeforeApostrophe(s: string)
    requires s == "&amp;" + "#x27;"
    ensures Decoded(s) == "&#x27;"
  {
    var u, v := "amp;#x27;", "#x27;";
    assert s == "&" + u && s == "&amp;" + v;
    LeadingAmpersandOnly(u, "&#x27;", 1);
    ReplaceAllAbsent(s, "&#x27;", "'");
    CharAbsent(v, "&amp;", 0);
    ReplaceLeading("&amp;", v, "&");
    assert "&" + v == "&#x27;";
    ApostropheEntityStays("&" + v);
    DecodedSteps(s);
  }

  /** None of the last five entities occurs in `&#x27;`. */
  lemma ApostropheEntityStays(t: string)
    requires t == "&" + "#x27;"
    ensures ReplaceAll(ReplaceAll(ReplaceAll(ReplaceAll(ReplaceAll(
      t, "&quot;", "\""), "&lt;", "<"), "&gt;", ">"), "&#39;", "'"), "&apos;", "'") == t
  {
    var v := "#x27;";
    LeadingAmpersandOnly(v, "&quot;", 1);
    ReplaceAllAbsent(t, "&quot;", "\"");
    LeadingAmpersandOnly(v, "&lt;", 1);
    ReplaceAllAbsent(t, "&lt;", "<");
    LeadingAmpersandOnly(v, "&gt;", 1);
    ReplaceAllAbsent(t, "&gt;", ">");
    LeadingAmpersandOnly(v, "&#39;", 2);
    ReplaceAllAbsent(t, "&#39;", "'");
    LeadingAmpersandOnly(v, "&apos;", 1);
    ReplaceAllAbsent(t, "&apos;", "'");
  }

  /** `&quot;` comes after `&amp;`, so `&amp;quot;` is decoded twice, to `"`. */
  lemma AmpersandThenQuote(s: string)
    requires s == "&amp;" + "quot;"
    ensures Decoded(s) == "\""
  {
    var u, v := "amp;quot;", "quot;";
    var q := "\"";
    assert s == "&" + u && s == "&amp;" + v;
    LeadingAmpersandOnly(u, "&#x27;", 1);
    ReplaceAllAbsent(s, "&#x27;", "'");
    CharAbsent(v, "&amp;", 0);
    ReplaceLeading("&amp;", v, "&");
    assert "&" + v == "&quot;";
    ReplaceWhole("&" + v, q);
    CharAbsent(q, "&lt;", 0);
    ReplaceAllAbsent(q, "&lt;", "<");
    CharAbsent(q, "&gt;", 0);
    ReplaceAllAbsent(q, "&gt;", ">");
    CharAbsent(q, "&#39;", 0);
    ReplaceAllAbsent(q, "&#39;", "'");
    CharAbsent(q, "&apos;", 0);
    ReplaceAllAbsent(q, "&apos;", "'");
    DecodedSteps(s);
  }

  // ---------------------------------------------------------------------------
  // stripHtmlTags and truncateText
  // ---------------------------------------------------------------------------

  /** `/<[^>]*>/`: a `<`, then everything up to and including the next `>`. */
  const AnyTag: Matcher := Then(Lit("<"), TagRest)

  /** No `<` is followed, anywhere later, by a `>`. */
  predicate TagFree(t: string) {
    forall i, j :: 0 <= i < j < |t| && t[i] == '<' ==> t[j] != '>'
  }

  /** Deleting matches never brings in a character. */
  lemma {:induction false} DeleteKeepsOut(s: string, m: Matcher, c: char)
    requires c !in s
    ensures c !in Sub(s, m, Const(""))
    decreases |s|
  {
    if s != [] {
      if Hits(m, s) {
        DeleteKeepsOut(s[m(s).value..], m, c);
      } else {
        DeleteKeepsOut(s[1..], m, c);
      }
    }
  }

  /** A `<` the tag pattern does not match has no `>` after it. */
  lemma OpenWithoutClose(s: string)
    requires s != [] && s[0] == '<' && !Hits(AnyTag, s)
    ensures '>' !in s[1..]
  {
    LitAt("<", s[1..]);
    assert s == "<" + s[1..];
    var n := RunWithout(s[1..], '>');
    assert n == |s[1..]|;
  }

  /** Removing every tag leaves no `<` with a `>` after it: a `<` that survives is
      one from which no `>` follows. */
  lemma {:induction false} DeletedTagFree(s: string)
    ensures TagFree(Sub(s, AnyTag, Const("")))
    decreases |s|
  {
    if s != [] {
      if Hits(AnyTag, s) {
        DeletedTagFree(s[AnyTag(s).value..]);
      } else {
        var rest := Sub(s[1..], AnyTag, Const(""));
        DeletedTagFree(s[1..]);
        if s[0] == '<' {
          OpenWithoutClose(s);
          DeleteKeepsOut(s[1..], AnyTag, '>');
        }
        var r := [s[0]] + rest;
        forall i, j | 0 <= i < j < |r| && r[i] == '<' ensures r[j] != '>' {
          assert r[j] == rest[j - 1];
          if i > 0 {
            assert r[i] == rest[i - 1];
          }
        }
      }
    }
  }

  /** A slice of a tag-free text is tag-free. */
  lemma SliceTagFree(t: string, a: nat, b: nat)
    requires a <= b <= |t| && TagFree(t)
    ensures TagFree(t[a..b])
  {
    forall i, j | 0 <= i < j < b - a && t[a..b][i] == '<' ensures t[a..b][j] != '>' {
      assert t[a..b][i] == t[a + i] && t[a..b][j] == t[a + j];
    }
  }

  /** `html.replace(/<[^>]*>/g, '').trim()`. */
  function StripHtmlTags(html: string): (r: string)
    ensures TagFree(r)
    ensures r == [] || (!JsSpace(r[0]) && !JsSpace(r[|r| - 1]))
  {
    var removed := Sub(html, AnyTag, Const(""));
    DeletedTagFree(html);
    var r := JsTrim(removed);
    var a: nat, b: nat :| a <= b <= |removed| && r == removed[a..b];
    SliceTagFree(removed, a, b);
    r
  }

  /** Text without `<` holds no tag: stripping only trims it. */
  lemma StripWithoutTags(html: string)
    requires '<' !in html
    ensures StripHtmlTags(html) == JsTrim(html)
  {
    forall k | 0 <= k < |html| ensures !Hits(AnyTag, html[k..]) {
      assert html[k..][0] == html[k];
      assert !StartsWith(html[k..], "<");
    }
    SubNoHit(html, AnyTag, Const(""));
  }

  const Ellipsis := "..."

  /** truncateText: the text itself when it fits, else its first maxLength - 3
      characters trimmed and followed by `...` (`substring` clamps a negative end
      to 0). */
  function TruncateText(text: string, maxLength: nat): (r: string)
    ensures |text| <= maxLength ==> r == text
    ensures maxLength < |text| ==> EndsWith(r, Ellipsis)
    ensures 3 <= maxLength < |text| ==> |r| <= maxLength
    ensures maxLength < |text| ==> var body := r[..|r| - 3];
      body == [] || (!JsSpace(body[0]) && !JsSpace(body[|body| - 1]))
  {
    if |text| <= maxLength then text
    else
      var end := if maxLength < 3 then 0 else maxLength - 3;
      var body := JsTrim(text[..end]);
      assert (body + Ellipsis)[..|body|] == body;
      body + Ellipsis
  }

  /** Truncating a truncated text changes nothing. */
  lemma TruncateIdempotent(text: string, maxLength: nat)
    requires 3 <= maxLength
    ensures TruncateText(TruncateText(text, maxLength), maxLength) == TruncateText(text, maxLength)
  {
  }

  // ---------------------------------------------------------------------------
  // The element patterns
  // ---------------------------------------------------------------------------

  /** The characters `.` does not match unless the pattern has the s flag. */
  predicate LineEnd(c: char) {
    c == '\n' || c == '\r' || c == '\U{2028}' || c == '\U{2029}'
  }

  /** A literal under the i flag: ASCII letters match in either case. */
  function CiLit(p: string): Matcher {
    t => if |p| > 0 && CiStartsWith(t, p) then Some(|p|) else None
  }

  /** A close, in either letter case, starts at j of t. */
  predicate CloseAt(t: string, close: string, j: nat) {
    j <= |t| && CiStartsWith(t[j..], close)
  }

  /** Where the lazy group that starts at j ends: the first close at or after j,
      which no line end may precede unless dotAll. */
  function CloseFrom(t: string, close: string, dotAll: bool, j: nat): (r: Option<nat>)
    requires j <= |t|
    ensures r.Some? ==> j <= r.value <= |t| && CloseAt(t, close, r.value)
    ensures r.Some? ==> forall l :: j <= l < r.value ==> !CloseAt(t, close, l) && (dotAll || !LineEnd(t[l]))
    ensures r.None? ==> forall l :: j <= l <= |t| && CloseAt(t, close, l) ==>
      !dotAll && exists e :: j <= e < l && LineEnd(t[e])
    decreases |t| - j
  {
    if CloseAt(t, close, j) then Some(j)
    else if j == |t| || (!dotAll && LineEnd(t[j])) then None
    else CloseFrom(t, close, dotAll, j + 1)
  }

  /** `(.*?)close`, or `([\s\S]*?)close` when dotAll, at the start of t: the length
      up to and including the first close. */
  function CloseAfter(close: string, dotAll: bool): Matcher {
    t => match CloseFrom(t, close, dotAll, 0)
      case None => None
      case Some(c) => Some(c + |close|)
  }

  /** An element pattern: the opening, then the lazy group, then the close. */
  function Element(open: Matcher, close: string, dotAll: bool): Matcher {
    Then(open, CloseAfter(close, dotAll))
  }

  /** Group 1 of the first match of an element pattern (`String.match` without g):
      the text between the opening and the first close after it. */
  function Group(html: string, open: Matcher, close: string, dotAll: bool): (g: Option<string>)
    ensures g.Some? <==> Search(html, Element(open, close, dotAll)).Some?
    ensures g.Some? && !dotAll ==> forall j :: 0 <= j < |g.value| ==> !LineEnd(g.value[j])
  {
    match Search(html, Element(open, close, dotAll))
    case None => None
    case Some(i) =>
      var t := html[i..];
      var n := open(t).value;
      var c := CloseFrom(t[n..], close, dotAll, 0).value;
      Some(t[n..][..c])
  }

  /** The value of a class attribute holds cls, in either letter case. */
  predicate CiContains(s: string, p: string) {
    Contains(LowerStr(s), LowerStr(p))
  }

  const ClassAttr := "class=\""

  /** t is a `class="` attribute whose value, up to its closing quote inside t,
      holds cls. */
  predicate ClassHolds(t: string, cls: string) {
    CiStartsWith(t, ClassAttr) &&
    var v := t[|ClassAttr|..];
    var n := RunWithout(v, '"');
    n < |v| && CiContains(v[..n], cls)
  }

  /** One of the class attributes in attrs holds cls: the part
      `[^>]*class="[^"]*cls[^"]*"[^>]*` of a classed opening tag. */
  predicate HasClass(attrs: string, cls: string)
    decreases |attrs|
  {
    attrs != [] && (ClassHolds(attrs, cls) || HasClass(attrs[1..], cls))
  }

  /** `<tag[^>]*class="[^"]*cls[^"]*"[^>]*>` under the i flag at the start of t:
      the opening, its attributes up to the first `>`, and that `>`, when one of
      the class attributes among them holds cls. */
  function ClassedOpenAt(tag: string, cls: string, t: string): (r: Option<nat>)
    ensures r.Some? ==> CiStartsWith(t, "<" + tag) && 1 + |tag| < r.value <= |t| && t[r.value - 1] == '>'
    ensures r.Some? ==> forall j :: 1 + |tag| <= j < r.value - 1 ==> t[j] != '>'
  {
    if !CiStartsWith(t, "<" + tag) then None
    else
      var attrs := t[1 + |tag|..];
      var n := RunWithout(attrs, '>');
      if n < |attrs| && HasClass(attrs[..n], cls) then Some(1 + |tag| + n + 1) else None
  }

  function ClassedOpen(tag: string, cls: string): Matcher {
    t => ClassedOpenAt(tag, cls, t)
  }

  /** `<h1[^>]*class="[^"]*page-title[^"]*"[^>]*>`. */
  const PageTitleOpen: Matcher := ClassedOpen("h1", "page-title")
  const HeadingClose := "</h1>"

  const TitleOpen: Matcher := CiLit("<title>")
  const TitleClose := "</title>"

  /** `<div[^>]*class="[^"]*w-richtext[^"]*"[^>]*>`. */
  const RichTextOpen: Matcher := ClassedOpen("div", "w-richtext")
  const DivClose := "</div>"

  /** `<p[^>]*>`. */
  const ParagraphOpen: Matcher := Then(CiLit("<p"), TagRest)
  const ParagraphClose := "</p>"

  // ---------------------------------------------------------------------------
  // File names and paths (Node's POSIX path module)
  // ---------------------------------------------------------------------------

  predicate IsSlash(c: char) { c == '/' }

  /** The part of q after its last `/`. */
  function LastSegment(q: string): (r: string)
    ensures '/' !in r && EndsWith(q, r)
    ensures |r| < |q| ==> q[|q| - |r| - 1] == '/'
    decreases |q|
  {
    if q == [] || q[|q| - 1] == '/' then []
    else
      var init := q[..|q| - 1];
      var r := LastSegment(init);
      assert q == init + [q[|q| - 1]];
      assert q[|q| - |r| - 1..] == init[|init| - |r|..] + [q[|q| - 1]];
      assert |r| < |init| ==> q[|q| - |r| - 2] == init[|init| - |r| - 1];
      r + [q[|q| - 1]]
  }

  /** `path.basename(p)`: the last segment once trailing slashes are dropped. */
  function Basename(p: string): (r: string)
    ensures '/' !in r
  {
    LastSegment(TrimEnd(p, IsSlash))
  }

  /** `path.basename(p, ext)`: the base name without ext when it ends with ext and is
      longer than it; the whole path equal to ext gives the empty name. */
  function BasenameExt(p: string, ext: string): (r: string)
    ensures '/' !in r
  {
    var b := Basename(p);
    if ext != [] && p == ext then []
    else if |ext| < |b| && EndsWith(b, ext) then b[..|b| - |ext|]
    else b
  }

  const SiteDir := "site/"

  /** `path.relative('site', p)` for a normalised relative path p: the rest of p
      under `site/`, else one level up. */
  function RelativeToSite(p: string): (r: string)
    ensures StartsWith(p, SiteDir) ==> p == SiteDir + r
  {
    if StartsWith(p, SiteDir) then p[|SiteDir|..]
    else if p == "site" then [] else "../" + p
  }

  // ---------------------------------------------------------------------------
  // extractTitle
  // ---------------------------------------------------------------------------

  /** The titles of the pages without a page-title heading (lines 12-18). */
  const TitleFallbacks: map<string, string> := map[
    "index.html" := "AVIR | " + "Luxury Smart Home Solutions",
    "old-home.html" := "AVIR Home | " + "Smart Home Technology",
    "commercial-form.html" := "Commercial Inquiry | AVIR",
    "residential-form.html" := "Residential Inquiry | AVIR",
    "service-request.html" := "Service Request | AVIR"]

  const DefaultTitle := "AVIR"

  /** The fallback for the file's name, else the page-title heading with its tags
      stripped and its entities decoded, else the `<title>` text decoded, else
      `AVIR`. */
  function ExtractTitle(html: string, filePath: string): string {
    var fileName := Basename(filePath);
    if fileName in TitleFallbacks then TitleFallbacks[fileName]
    else match Group(html, PageTitleOpen, HeadingClose, false)
      case Some(heading) => Decoded(JsTrim(StripHtmlTags(heading)))
      case None =>
        match Group(html, TitleOpen, TitleClose, false)
        case Some(text) => Decoded(JsTrim(text))
        case None => DefaultTitle
  }

  /** A file with a fallback title gets it whatever its page holds. */
  lemma TitleFromFallback(html: string, filePath: string)
    requires Basename(filePath) in TitleFallbacks
    ensures ExtractTitle(html, filePath) == TitleFallbacks[Basename(filePath)]
    ensures forall other :: ExtractTitle(other, filePath) == ExtractTitle(html, filePath)
  {
  }

  /** A heading of plain text (no tags, no entities) yields its trimmed text. */
  lemma PlainHeading(heading: string)
    requires '<' !in heading && '&' !in heading
    ensures Decoded(JsTrim(StripHtmlTags(heading))) == JsTrim(heading)
  {
    StripWithoutTags(heading);
    TrimIdempotent(heading, JsSpace);
    var t := JsTrim(heading);
    var a: nat, b: nat :| a <= b <= |heading| && t == heading[a..b];
    assert '&' !in heading[a..];
    assert '&' !in t;
    DecodedWithoutAmpersand(t);
  }

  /** A page-title heading of plain text gives its trimmed text, whatever the
      `<title>` says. */
  lemma TitleFromHeading(html: string, filePath: string, heading: string)
    requires Basename(filePath) !in TitleFallbacks
    requires Group(html, PageTitleOpen, HeadingClose, false) == Some(heading)
    requires '<' !in heading && '&' !in heading
    ensures ExtractTitle(html, filePath) == JsTrim(heading)
  {
    PlainHeading(heading);
  }

  /** Without a page-title heading the `<title>` text is used. */
  lemma TitleFromTitleTag(html: string, filePath: string, text: string)
    requires Basename(filePath) !in TitleFallbacks
    requires Group(html, PageTitleOpen, HeadingClose, false).None?
    requires Group(html, TitleOpen, TitleClose, false) == Some(text)
    ensures ExtractTitle(html, filePath) == Decoded(JsTrim(text))
  {
  }

  /** With neither, the title is `AVIR`. */
  lemma TitleDefault(html: string, filePath: string)
    requires Basename(filePath) !in TitleFallbacks
    requires Group(html, PageTitleOpen, HeadingClose, false).None?
    requires Group(html, TitleOpen, TitleClose, false).None?
    ensures ExtractTitle(html, filePath) == DefaultTitle
  {
  }

  // ---------------------------------------------------------------------------
  // extractDescription
  // ---------------------------------------------------------------------------

  const MaxDescriptionLength: nat := 155

  const CityLead := "Premium smart home installation" + " and automation services in "
  const CityTail := ". AVIR delivers luxury home" + " technology solutions for the" + " discerning homeowner."
  const PostDescription := "Read the latest smart home" + " technology news and product" + " updates from AVIR."
  const DefaultDescription := "Luxury smart home solutions," + " designed for the discerning."

  /** The `city` template. */
  function CityDescription(cityName: string): string {
    CityLead + cityName + CityTail
  }

  /** `word.charAt(0).toUpperCase() + word.slice(1)`, for ASCII letters. */
  function Capitalise(word: string): (r: string)
    ensures |r| == |word| && (word != [] ==> r[0] == Upper(word[0]) && r[1..] == word[1..])
  {
    if word == [] then [] else [Upper(word[0])] + word[1..]
  }

  function CapitaliseAll(words: seq<string>): (r: seq<string>)
    ensures |r| == |words| && forall i :: 0 <= i < |words| ==> r[i] == Capitalise(words[i])
  {
    seq(|words|, i requires 0 <= i < |words| => Capitalise(words[i]))
  }

  /** The city's name from the file's base name: hyphens become spaces and every
      word is capitalised. */
  function CityName(baseName: string): string {
    Join(CapitaliseAll(Split(baseName, '-')), ' ')
  }

  /** A capitalised word holds a space only where the word does. */
  lemma CapitaliseKeepsOutSpace(word: string)
    requires ' ' !in word
    ensures ' ' !in Capitalise(word)
  {
    if word != [] {
      assert Capitalise(word) == [Upper(word[0])] + word[1..];
    }
  }

  /** The words of a city name are the hyphen-separated parts of the base name,
      each capitalised. */
  lemma CityNameWords(baseName: string)
    requires ' ' !in baseName
    ensures Split(CityName(baseName), ' ') == CapitaliseAll(Split(baseName, '-'))
  {
    var parts := Split(baseName, '-');
    SplitKeepsOut(baseName, '-', ' ');
    var words := CapitaliseAll(parts);
    forall i | 0 <= i < |words| ensures ' ' !in words[i] {
      CapitaliseKeepsOutSpace(parts[i]);
    }
    SplitJoin(words, ' ');
  }

  /** The white space the cleanup pattern removes at either end: `\s`, the zero
      width space and the no-break space. */
  predicate DescriptionSpace(c: char) {
    JsSpace(c) || c == '\U{200B}'
  }

  /** The paragraph's text: tags stripped, entities decoded, ends cleaned. */
  function CleanDescription(paragraph: string): (d: string)
    ensures d == [] || (!DescriptionSpace(d[0]) && !DescriptionSpace(d[|d| - 1]))
  {
    Trim(Decoded(StripHtmlTags(paragraph)), DescriptionSpace)
  }

  /** The first paragraph inside the first rich-text block, if there is one. */
  function RichParagraph(html: string): Option<string> {
    match Group(html, RichTextOpen, DivClose, true)
    case None => None
    case Some(rich) => Group(rich, ParagraphOpen, ParagraphClose, false)
  }

  /** The page's own description when its rich-text paragraph gives more than ten
      characters, else the template for its directory. */
  function ExtractDescription(html: string, filePath: string): (d: string)
    ensures d != []
  {
    var relativePath := RelativeToSite(filePath);
    var paragraph := RichParagraph(html);
    if paragraph.Some? && |CleanDescription(paragraph.value)| > 10 then
      TruncateText(CleanDescription(paragraph.value), MaxDescriptionLength)
    else if StartsWith(relativePath, "city/") then CityDescription(CityName(BasenameExt(filePath, ".html")))
      else if StartsWith(relativePath, "post/") then PostDescription
      else DefaultDescription
  }

  /** A paragraph of more than ten characters gives the description, cut to at
      most 155 characters. */
  lemma DescriptionFromParagraph(html: string, filePath: string, paragraph: string)
    requires RichParagraph(html) == Some(paragraph) && |CleanDescription(paragraph)| > 10
    ensures var d := ExtractDescription(html, filePath);
      d == TruncateText(CleanDescription(paragraph), MaxDescriptionLength) && |d| <= MaxDescriptionLength
  {
  }

  /** Otherwise a page under `city/` describes its city by name. */
  lemma DescriptionForCity(html: string, filePath: string)
    requires RichParagraph(html).None? || |CleanDescription(RichParagraph(html).value)| <= 10
    requires StartsWith(filePath, SiteDir + "city/")
    ensures ExtractDescription(html, filePath) == CityDescription(CityName(BasenameExt(filePath, ".html")))
  {
    var rest := filePath[|SiteDir|..];
    assert filePath[..|SiteDir|] == SiteDir;
    assert rest[..5] == filePath[|SiteDir|..|SiteDir| + 5];
  }

  /** A page under `post/` gets the post text, any other the default. */
  lemma DescriptionOtherwise(html: string, filePath: string)
    requires RichParagraph(html).None? || |CleanDescription(RichParagraph(html).value)| <= 10
    requires !StartsWith(RelativeToSite(filePath), "city/")
    ensures ExtractDescription(html, filePath) ==
      if StartsWith(RelativeToSite(filePath), "post/") then PostDescription else DefaultDescription
  {
  }

  // ---------------------------------------------------------------------------
  // extractImage
  // ---------------------------------------------------------------------------

  const CdnHost := "https://" + "cdn.prod.website-files.com/"
  const SrcOpen := "src=\""
  const DefaultOgImage := CdnHost + "61aeaa63fc373a25c198ab33/" + "6361680bf3e6a52a0fd9470c_" + "AVIR%20Opengraph.jpg"

  /** The text of one match of `src="(https://cdn.prod.website-files.com/[^"]+)"`
      under the i flag. */
  predicate CdnSrcMatch(x: string) {
    |SrcOpen + CdnHost| + 2 <= |x| && CiStartsWith(x, SrcOpen + CdnHost) && x[|x| - 1] == '"'
    && '"' !in x[|SrcOpen + CdnHost|..|x| - 1]
  }

  /** That pattern at the start of t: the opening, a quote-free non-empty path, and
      the closing quote. */
  function CdnSrcAt(t: string): (r: Option<nat>)
    ensures r.Some? ==> r.value <= |t| && CdnSrcMatch(t[..r.value])
  {
    var open := SrcOpen + CdnHost;
    if !CiStartsWith(t, open) then None
    else
      var n := RunWithout(t[|open|..], '"');
      if 0 < n < |t| - |open| then
        var x := t[..|open| + n + 1];
        assert x[..|open|] == t[..|open|];
        assert x[|open|..|x| - 1] == t[|open|..][..n];
        Some(|open| + n + 1)
      else None
  }

  const CdnSrc: Matcher := t => CdnSrcAt(t)

  /** Every match the global pattern reports has the pattern's shape. */
  lemma {:induction false} CdnMatchesShaped(s: string)
    ensures forall x :: x in FindAll(s, CdnSrc) ==> CdnSrcMatch(x)
    decreases |s|
  {
    if s != [] {
      if Hits(CdnSrc, s) {
        CdnMatchesShaped(s[CdnSrc(s).value..]);
      } else {
        CdnMatchesShaped(s[1..]);
      }
    }
  }

  /** A case-blind prefix a + b leaves a case-blind prefix b after a. */
  lemma CiStartsWithRest(x: string, a: string, b: string)
    requires CiStartsWith(x, a + b)
    ensures CiStartsWith(x[|a|..], b)
  {
    var y := x[|a|..];
    forall i | 0 <= i < |b| ensures LowerStr(y[..|b|])[i] == LowerStr(b)[i] {
      assert y[..|b|][i] == x[..|a + b|][|a| + i];
      assert (a + b)[|a| + i] == b[i];
    }
  }

  /** `match.match(/src="([^"]+)"/i)[1]`: the quoted URL of a match. */
  function UrlOf(x: string): (url: string)
    requires CdnSrcMatch(x)
    ensures CiStartsWith(url, CdnHost) && |url| > |CdnHost| && '"' !in url[|CdnHost|..]
  {
    var url := x[|SrcOpen|..|x| - 1];
    CiStartsWithRest(x, SrcOpen, CdnHost);
    assert url[..|CdnHost|] == x[|SrcOpen|..][..|CdnHost|];
    assert url[|CdnHost|..] == x[|SrcOpen + CdnHost|..|x| - 1];
    url
  }

  /** Not an SVG, a logo or an icon. */
  predicate Usable(url: string) {
    !Contains(url, ".svg") && !Contains(url, "logo") && !Contains(url, "icon")
  }

  /** The first usable URL of the list. */
  function FirstUsable(urls: seq<string>): (r: Option<nat>)
    ensures r.Some? ==> r.value < |urls| && Usable(urls[r.value])
    ensures forall i :: 0 <= i < |urls| && (r.None? || i < r.value) ==> !Usable(urls[i])
  {
    if urls == [] then None
    else if Usable(urls[0]) then Some(0)
    else match FirstUsable(urls[1..])
      case None => None
      case Some(k) => Some(k + 1)
  }

  /** The URLs of the CDN images of the page, in order. */
  function CdnImages(html: string): (urls: seq<string>)
    ensures forall i :: 0 <= i < |urls| ==>
      CiStartsWith(urls[i], CdnHost) && |urls[i]| > |CdnHost| && '"' !in urls[i][|CdnHost|..]
  {
    var matches := FindAll(html, CdnSrc);
    CdnMatchesShaped(html);
    seq(|matches|, i requires 0 <= i < |matches| => UrlOf(matches[i]))
  }

  /** The first usable CDN image of the page, else the default Open Graph image. */
  function ExtractImage(html: string): (image: string)
    ensures image == DefaultOgImage || (CiStartsWith(image, CdnHost) && Usable(image))
    ensures (exists i :: 0 <= i < |CdnImages(html)| && Usable(CdnImages(html)[i])) ==>
      (var k := FirstUsable(CdnImages(html)).value; image == CdnImages(html)[k])
  {
    var urls := CdnImages(html);
    match FirstUsable(urls)
    case None => DefaultOgImage
    case Some(k) => urls[k]
  }

  // ---------------------------------------------------------------------------
  // generateCanonicalUrl, hasExistingSeo, generateSeoTags
  // ---------------------------------------------------------------------------

  const BaseUrl := "https://avir.com"

  /** The site's address, a slash, and the path relative to the site directory with
      backslashes turned into slashes. */
  function CanonicalUrl(filePath: string): (url: string)
    ensures StartsWith(url, BaseUrl + "/") && '\\' !in url
    ensures StartsWith(filePath, SiteDir) && '\\' !in filePath ==> url == BaseUrl + "/" + filePath[|SiteDir|..]
  {
    var rel := RelativeToSite(filePath);
    var url := BaseUrl + "/" + MapChar(rel, '\\', '/');
    MapCharRemoves(rel, '\\', '/');
    assert '\\' !in BaseUrl + "/";
    StartsWithConcat(BaseUrl + "/", MapChar(rel, '\\', '/'));
    assert StartsWith(filePath, SiteDir) && '\\' !in filePath ==> url == BaseUrl + "/" + filePath[|SiteDir|..] by {
      if StartsWith(filePath, SiteDir) && '\\' !in filePath {
        assert '\\' !in filePath[|SiteDir|..];
        MapCharNoop(rel, '\\', '/');
      }
    }
    url
  }

  const CanonicalRel := "rel=\"canonical\""

  /** The page already has a canonical link. */
  predicate HasExistingSeo(html: string) {
    Contains(html, CanonicalRel)
  }

  const ContentOpen := "<meta content=\""

  /** One `<meta content="value" ...>` line. */
  function MetaLine(value: string, rest: string): string {
    ContentOpen + value + rest + "\n"
  }

  /** The canonical link line. */
  function CanonicalLine(url: string): string {
    "<link " + CanonicalRel + " href=\"" + url + "\"/>\n"
  }

  lemma CanonicalLineHasRel(url: string)
    ensures Contains(CanonicalLine(url), CanonicalRel)
  {
    ContainsSpliced(CanonicalLine(url), [], "<link ", CanonicalRel, [], " href=\"" + url + "\"/>\n");
  }

  lemma EndsWithConcat(a: string, b: string)
    ensures EndsWith(a + b, b) && a + b + [] == a + b
  {
    assert (a + b)[|a + b| - |b|..] == b;
  }

  /** The ten lines of generateSeoTags, in order. */
  function SeoTags(title: string, description: string, ogImage: string, canonicalUrl: string): (tags: string)
    ensures Contains(tags, CanonicalRel)
    ensures EndsWith(tags, CanonicalLine(canonicalUrl))
  {
    var metas :=
      MetaLine(description, "\" name=\"description\"/>")
      + MetaLine(title, "\" property=\"og:title\"/>")
      + MetaLine(description, "\" property=\"og:description\"/>")
      + MetaLine(ogImage, "\" property=\"og:image\"/>")
      + MetaLine(title, "\" property=\"twitter:title\"/>")
      + MetaLine(description, "\" property=\"twitter:description\"/>")
      + MetaLine(ogImage, "\" property=\"twitter:image\"/>")
      + "<meta property=\"og:type\" content=\"website\"/>\n"
      + "<meta content=\"summary_large_image\" name=\"twitter:card\"/>\n";
    var line := CanonicalLine(canonicalUrl);
    CanonicalLineHasRel(canonicalUrl);
    ContainsInConcat(metas, line, [], CanonicalRel);
    EndsWithConcat(metas, line);
    metas + line
  }

  // ---------------------------------------------------------------------------
  // injectSeoTags
  // ---------------------------------------------------------------------------

  /** `/<title>.*?<\/title>/i`. */
  const TitleElement: Matcher := Element(TitleOpen, TitleClose, false)

  function TitleTag(title: string): string {
    "<title>" + title + TitleClose
  }

  /** The first title element replaced by one holding the new title. */
  function Retitled(html: string, title: string): string {
    SubFirst(html, TitleElement, Const(TitleTag(title)))
  }

  const ViewportOpen := "<meta content=\"" + "width=device-width"

  /** `/(<meta content="width=device-width[^>]*>)/i`. */
  const Viewport: Matcher := Then(CiLit(ViewportOpen), TagRest)

  /** `/(<\/title>)/i`. */
  const TitleCloseTag: Matcher := CiLit(TitleClose)

  /** `indexOf`: the first occurrence, or -1. */
  function IndexOf(s: string, p: string): (r: int)
    ensures -1 <= r <= |s|
    ensures r >= 0 ==> OccursAt(s, p, r)
  {
    match Find(s, p)
    case Some(i) => i
    case None => -1
  }

  /** The tags before the viewport meta tag, else after the first `</title>` on a
      line of their own, once the title element has been replaced. */
  function InjectSeoTags(html: string, seoTags: string, title: string): string {
    var h := Retitled(html, title);
    match Search(h, Viewport)
    case Some(i) =>
      var insertionPoint := IndexOf(h, MatchAt(h, Viewport, i));
      if insertionPoint < 0 then seoTags + h
      else h[..insertionPoint] + seoTags + h[insertionPoint..]
    case None => SubFirst(h, TitleCloseTag, Append("\n" + seoTags))
  }

  /** A text that starts with what `[^>]*>` matched matches it the same way. */
  lemma TagRestCopy(u: string, t: string)
    requires TagRest(u).Some? && StartsWith(t, u[..TagRest(u).value])
    ensures TagRest(t) == TagRest(u)
  {
    var k := RunWithout(u, '>');
    var r := RunWithout(t, '>');
    assert t[..k + 1] == u[..k + 1];
  }

  /** A text that starts with a match of `p[^>]*>` matches it, and in the same way. */
  lemma CiTagCopy(p: string, u: string, t: string)
    requires p != [] && Hits(Then(CiLit(p), TagRest), u)
    requires StartsWith(t, u[..Then(CiLit(p), TagRest)(u).value])
    ensures Then(CiLit(p), TagRest)(t) == Then(CiLit(p), TagRest)(u)
  {
    var n := |p|;
    assert CiLit(p)(u) == Some(n);
    var v := Then(CiLit(p), TagRest)(u).value;
    var rest := TagRest(u[n..]).value;
    assert v == n + rest;
    assert t[..v] == u[..v];
    assert t[..n] == u[..n];
    assert CiLit(p)(t) == Some(n);
    assert t[n..][..rest] == u[n..][..rest] by {
      assert t[n..][..rest] == t[..v][n..];
      assert u[n..][..rest] == u[..v][n..];
    }
    TagRestCopy(u[n..], t[n..]);
  }

  /** `indexOf` of the text the viewport pattern matched finds the match itself: an
      earlier copy of that text would be an earlier match. */
  lemma IndexOfMatch(h: string, i: nat)
    requires Search(h, Viewport) == Some(i)
    ensures IndexOf(h, MatchAt(h, Viewport, i)) == i
  {
    var m := MatchAt(h, Viewport, i);
    assert h[i..i + |m|] == m;
    assert OccursAt(h, m, i);
    var j := Find(h, m).value;
    if j < i {
      assert h[j..][..|m|] == h[j..j + |m|];
      CiTagCopy(ViewportOpen, h[i..], h[j..]);
      assert HitsAt(h, Viewport, j);
    }
  }

  /** With a viewport meta tag the tags go right before the first one. */
  lemma InjectBeforeViewport(html: string, seoTags: string, title: string, i: nat)
    requires Search(Retitled(html, title), Viewport) == Some(i)
    ensures var h := Retitled(html, title);
      InjectSeoTags(html, seoTags, title) == h[..i] + seoTags + h[i..]
  {
    IndexOfMatch(Retitled(html, title), i);
  }

  /** Without one they go after the first `</title>`, on a new line. */
  lemma InjectAfterTitle(html: string, seoTags: string, title: string, j: nat)
    requires Search(Retitled(html, title), Viewport).None?
    requires Search(Retitled(html, title), TitleCloseTag) == Some(j)
    ensures var h := Retitled(html, title);
      (j + |TitleClose| <= |h| &&
       InjectSeoTags(html, seoTags, title) == h[..j] + (h[j..j + |TitleClose|] + "\n" + seoTags) + h[j + |TitleClose|..])
  {
    var h := Retitled(html, title);
    SearchSubFirst(h, TitleCloseTag, Append("\n" + seoTags), j);
    assert TitleCloseTag(h[j..]).value == |TitleClose|;
    SliceOfSuffix(h, j, |TitleClose|);
    ConcatAssoc(h[j..j + |TitleClose|], "\n", seoTags);
  }

  /** Either way the result holds the tags. */
  lemma InjectedTagsPresent(html: string, seoTags: string, title: string)
    requires Search(Retitled(html, title), Viewport).Some? || Search(Retitled(html, title), TitleCloseTag).Some?
    ensures Contains(InjectSeoTags(html, seoTags, title), seoTags)
  {
    var h := Retitled(html, title);
    if Search(h, Viewport).Some? {
      ViewportTagsPresent(html, seoTags, title, Search(h, Viewport).value);
    } else {
      TitleTagsPresent(html, seoTags, title, Search(h, TitleCloseTag).value);
    }
  }

  lemma ContainsMiddle(a: string, b: string, c: string)
    ensures Contains(a + b + c, b)
  {
    assert OccursAt(b, b, 0);
    ContainsInConcat(a, b, c, b);
  }

  lemma ViewportTagsPresent(html: string, seoTags: string, title: string, i: nat)
    requires Search(Retitled(html, title), Viewport) == Some(i)
    ensures Contains(InjectSeoTags(html, seoTags, title), seoTags)
  {
    var h := Retitled(html, title);
    InjectBeforeViewport(html, seoTags, title, i);
    ContainsMiddle(h[..i], seoTags, h[i..]);
  }

  lemma TitleTagsPresent(html: string, seoTags: string, title: string, j: nat)
    requires Search(Retitled(html, title), Viewport).None?
    requires Search(Retitled(html, title), TitleCloseTag) == Some(j)
    ensures Contains(InjectSeoTags(html, seoTags, title), seoTags)
  {
    var h := Retitled(html, title);
    InjectAfterTitle(html, seoTags, title, j);
    var c := j + |TitleClose|;
    ContainsMiddle(h[..j] + (h[j..c] + "\n"), seoTags, h[c..]);
    ConcatAssoc(h[..j], h[j..c] + "\n", seoTags);
  }

  /** A match of the title element ends in a title close. */
  lemma ElementEndsInClose(html: string, k: nat)
    requires k < |html|
    ensures Hits(TitleElement, html[k..]) ==> exists l :: k < l <= |html| && Hits(TitleCloseTag, html[l..])
  {
    if Hits(TitleElement, html[k..]) {
      var t := html[k..];
      var n := TitleOpen(t).value;
      var c := CloseFrom(t[n..], TitleClose, false, 0).value;
      assert CloseAt(t[n..], TitleClose, c);
      assert t[n..][c..] == html[k + n + c..];
      assert Hits(TitleCloseTag, html[k + n + c..]);
    }
  }

  /** A page without `</title>` in any letter case and without a viewport meta tag
      comes back unchanged: there is neither a title element to replace nor an
      anchor for the tags. */
  lemma NoAnchorUnchanged(html: string, seoTags: string, title: string)
    requires NoHit(html, TitleCloseTag) && NoHit(html, Viewport)
    ensures InjectSeoTags(html, seoTags, title) == html
  {
    forall k | 0 <= k < |html| ensures !Hits(TitleElement, html[k..]) {
      ElementEndsInClose(html, k);
    }
    SubNoHit(html, TitleElement, Const(TitleTag(title)));
    SearchNone(html, Viewport);
    SubNoHit(html, TitleCloseTag, Append("\n" + seoTags));
  }

  // ---------------------------------------------------------------------------
  // processFile and the command line
  // ---------------------------------------------------------------------------

  /** What processFile does with one file: skip it, show the tags it would insert
      (a dry run), or write the new content. */
  datatype Outcome = Skipped | Previewed(seoTags: string) | Written(content: string)

  /** The tags for a page without a canonical link, shown or injected. */
  function Tagged(html: string, filePath: string, dryRun: bool): (o: Outcome)
    ensures o.Previewed? <==> dryRun
    ensures !o.Skipped?
  {
    var seoTags := PageTags(html, filePath);
    if dryRun then Previewed(seoTags)
    else Written(InjectSeoTags(html, seoTags, ExtractTitle(html, filePath)))
  }

  /** The tags generateSeoTags builds from what the page says. */
  function PageTags(html: string, filePath: string): (r: string)
    ensures Contains(r, CanonicalRel)
  {
    SeoTags(ExtractTitle(html, filePath), ExtractDescription(html, filePath), ExtractImage(html), CanonicalUrl(filePath))
  }

  /** processFile on the file's content: a page with a canonical link is skipped;
      otherwise the tags are built from what the page says and either shown or
      injected. */
  function ProcessFile(html: string, filePath: string, dryRun: bool): (o: Outcome)
    ensures o.Skipped? <==> HasExistingSeo(html)
    ensures o.Previewed? <==> !HasExistingSeo(html) && dryRun
  {
    if HasExistingSeo(html) then Skipped else Tagged(html, filePath, dryRun)
  }

  /** An exact `</title>` is a match of the case-blind pattern. */
  lemma ExactTitleClose(h: string, k: nat)
    requires OccursAt(h, TitleClose, k)
    ensures HitsAt(h, TitleCloseTag, k)
  {
    assert h[k..][..|TitleClose|] == h[k..k + |TitleClose|];
  }

  /** Replacing the title element keeps a `</title>` in the page. */
  lemma RetitledKeepsClose(html: string, title: string)
    requires Contains(html, TitleClose)
    ensures Contains(Retitled(html, title), TitleClose)
  {
    match Search(html, TitleElement)
    case None =>
      SearchNone(html, TitleElement);
      SubNoHit(html, TitleElement, Const(TitleTag(title)));
    case Some(i) =>
      SearchSubFirst(html, TitleElement, Const(TitleTag(title)), i);
      var n := TitleElement(html[i..]).value;
      var rest := html[i..][n..];
      ContainsSpliced(html[..i] + (TitleTag(title) + rest), html[..i], "<title>" + title, TitleClose, [], rest);
  }

  /** A page with a `</title>` receives the tags. */
  lemma TagsReachPage(html: string, seoTags: string, title: string)
    requires Contains(html, TitleClose)
    ensures Contains(InjectSeoTags(html, seoTags, title), seoTags)
  {
    var h := Retitled(html, title);
    RetitledKeepsClose(html, title);
    var k :| 0 <= k <= |h| - |TitleClose| && OccursAt(h, TitleClose, k);
    ExactTitleClose(h, k);
    SearchNone(h, TitleCloseTag);
    InjectedTagsPresent(html, seoTags, title);
  }

  /** Injecting tags that hold a canonical link into a page with a `</title>` gives
      a page with a canonical link. */
  lemma InjectedPageHasSeo(html: string, seoTags: string, title: string)
    requires Contains(html, TitleClose) && Contains(seoTags, CanonicalRel)
    ensures HasExistingSeo(InjectSeoTags(html, seoTags, title))
  {
    TagsReachPage(html, seoTags, title);
    ContainsTrans(InjectSeoTags(html, seoTags, title), seoTags, CanonicalRel);
  }

  /** The written page has a canonical link, so running the script on it again
      skips it. */
  lemma RerunSkips(html: string, filePath: string, dryRun: bool)
    requires !HasExistingSeo(html) && Contains(html, TitleClose)
    ensures ProcessFile(html, filePath, false).Written?
    ensures ProcessFile(ProcessFile(html, filePath, false).content, filePath, dryRun) == Skipped
  {
    InjectedPageHasSeo(html, PageTags(html, filePath), ExtractTitle(html, filePath));
  }

  /** The last argument that does not start with `--`. */
  function LastPath(args: seq<string>): (r: Option<string>)
    ensures r.Some? ==> exists i :: (0 <= i < |args| && args[i] == r.value && !StartsWith(args[i], "--")
      && forall j :: i < j < |args| ==> StartsWith(args[j], "--"))
    ensures r.None? ==> forall j :: 0 <= j < |args| ==> StartsWith(args[j], "--")
  {
    if args == [] then None
    else if !StartsWith(args[|args| - 1], "--") then Some(args[|args| - 1])
    else
      var r := LastPath(args[..|args| - 1]);
      assert forall j :: 0 <= j < |args| - 1 ==> args[..|args| - 1][j] == args[j];
      r
  }

  /** The argument loop of main: `--dry-run` sets the flag, any other argument not
      starting with `--` becomes the file path. */
  method ParseArgs(args: seq<string>) returns (dryRun: bool, filePath: Option<string>)
    ensures dryRun <==> "--dry-run" in args
    ensures filePath == LastPath(args)
  {
    dryRun := false;
    filePath := None;
    for i := 0 to |args|
      invariant dryRun <==> "--dry-run" in args[..i]
      invariant filePath == LastPath(args[..i])
    {
      assert args[..i + 1][..i] == args[..i];
      if args[i] == "--dry-run" {
        dryRun := true;
      } else if !StartsWith(args[i], "--") {
        filePath := Some(args[i]);
      }
    }
    assert args[..|args|] == args;
  }

  /** What main goes on to do: print the usage, report a missing file (both exit
      with status 1), or process the file. */
  datatype Command = Usage | NotFound(path: string) | Process(path: string, dryRun: bool)

  /** main up to processFile; `fileExists` stands for `fs.existsSync`. */
  method Cli(args: seq<string>, fileExists: string -> bool) returns (command: Command)
    ensures command.Usage? <==> LastPath(args).None? || LastPath(args) == Some([])
    ensures command.NotFound? ==> Some(command.path) == LastPath(args) && !fileExists(command.path)
    ensures command.Process? ==> (Some(command.path) == LastPath(args) && fileExists(command.path)
      && (command.dryRun <==> "--dry-run" in args))
  {
    var dryRun, filePath := ParseArgs(args);
    if filePath.None? || filePath.value == [] {
      return Usage;
    }
    if !fileExists(filePath.value) {
      return NotFound(filePath.value);
    }
    command := Process(filePath.value, dryRun);
  }

  function ExitStatus(command: Command): int {
    if command.Process? then 0 else 1
  }
}

/** scripts/fix-html-files.py: a pipeline of substitutions over every HTML page of the
    site (titles, fonts, CDN paths, visibility CSS, scripts, links), and a page is
    written back only when the pipeline changed it. */
module FixHtmlFiles {
  import opened Text
  import opened Rewrite

  // ---------------------------------------------------------------------------
  // fix_title
  // ---------------------------------------------------------------------------

  const Brand := "AVIR"
  const BarPrefix := "AVIR |"
  const ColonPrefix := "AVIR:"
  const BrandTitle := "AVIR | Luxury Smart Home Solutions"

  /** The forms fix_title leaves as they are. */
  predicate Branded(t: string) {
    StartsWith(t, BarPrefix) || StartsWith(t, ColonPrefix)
  }

  /** The branding of a stripped title: kept when it carries the brand prefix, the
      bare brand completed to the site title, the prefix put in front otherwise. */
  function Branding(t: string): (r: string)
    ensures Branded(r)
  {
    if t == BrandTitle then t
    else if Branded(t) then t
    else if t == Brand then BrandTitle
    else
      StartsWithConcat(BarPrefix, " " + t);
      assert BarPrefix + (" " + t) == BarPrefix + " " + t;
      BarPrefix + " " + t
  }

  /** fix_title: an empty title becomes the bare brand; any other is stripped and
      branded. */
  function FixTitle(title: string): (r: string)
    ensures title == [] ==> r == Brand
    ensures title != [] ==> Branded(r)
  {
    if title == [] then Brand else Branding(PyStrip(title))
  }

  /** A branded title is kept, stripped. */
  lemma BrandedTitleKept(title: string)
    requires title != [] && Branded(PyStrip(title))
    ensures FixTitle(title) == PyStrip(title)
  {
  }

  /** The bare brand, with any surrounding space, becomes the site title. */
  lemma BareBrandCompleted(title: string)
    requires PyStrip(title) == Brand
    ensures FixTitle(title) == BrandTitle
  {
    assert title != [] by {
      if title == [] {
        TrimNoop(title, PySpace);
      }
    }
    assert !Branded(Brand);
  }

  /** Any other title gets `AVIR | ` in front of its stripped text. */
  lemma OtherTitlePrefixed(title: string)
    requires title != [] && !Branded(PyStrip(title)) && PyStrip(title) != Brand
    ensures FixTitle(title) == BarPrefix + " " + PyStrip(title)
  {
    assert Branded(BrandTitle);
  }

  /** Branding keeps the ends of a stripped text free of space. */
  lemma BrandingStripped(t: string)
    requires t != [] && !PySpace(t[0]) && !PySpace(t[|t| - 1])
    ensures PyStrip(Branding(t)) == Branding(t)
  {
    var r := Branding(t);
    if r == BarPrefix + " " + t {
      assert r[0] == 'A' && r[|r| - 1] == t[|t| - 1];
    } else if r == BrandTitle {
      assert r[0] == 'A' && r[|r| - 1] == 's';
    }
    TrimNoop(r, PySpace);
  }

  /** A title whose text is not blank comes out as a fixed point. */
  lemma FixTitleIdempotent(title: string)
    requires PyStrip(title) != []
    ensures FixTitle(FixTitle(title)) == FixTitle(title)
  {
    var t := PyStrip(title);
    NonBlankBranded(title);
    BrandingFixed(t);
  }

  lemma NonBlankBranded(title: string)
    requires PyStrip(title) != []
    ensures FixTitle(title) == Branding(PyStrip(title))
  {
    assert title != [] by {
      if title == [] {
        TrimNoop(title, PySpace);
      }
    }
  }

  /** The branding of a stripped text is a fixed point of fix_title. */
  lemma BrandingFixed(t: string)
    requires t != [] && !PySpace(t[0]) && !PySpace(t[|t| - 1])
    ensures FixTitle(Branding(t)) == Branding(t)
  {
    var r := Branding(t);
    BrandingStripped(t);
    assert r != [] by {
      assert Branded(r);
    }
    BrandedKept(r);
  }

  /** Branding leaves a branded text as it is. */
  lemma BrandedKept(r: string)
    requires Branded(r)
    ensures Branding(r) == r
  {
  }

  /** fix_title is not idempotent: the empty title becomes the brand, which a second
      run completes, */
  lemma EmptyTitleNotIdempotent()
    ensures FixTitle([]) == Brand && FixTitle(FixTitle([])) == BrandTitle
  {
    TrimNoop(Brand, PySpace);
    BareBrandCompleted(Brand);
  }

  /** and a blank title becomes `AVIR | `, whose trailing space a second run strips. */
  lemma BlankTitleNotIdempotent(title: string)
    requires title != [] && PyStrip(title) == []
    ensures FixTitle(title) == BarPrefix + " "
    ensures FixTitle(FixTitle(title)) == BarPrefix
  {
    var r := BarPrefix + " ";
    assert FixTitle(title) == r by {
      assert !Branded([]) && [] != BrandTitle && [] != Brand;
      assert BarPrefix + " " + [] == r;
    }
    BarSpaceStripped(r);
    assert Branded(BarPrefix) && BarPrefix != BrandTitle;
  }

  lemma BarSpaceStripped(r: string)
    requires r == BarPrefix + " "
    ensures PyStrip(r) == BarPrefix
  {
    TrimStartNoop(r, PySpace);
    assert r[..|r| - 1] == BarPrefix;
    TrimEndNoopOnTrimmed(BarPrefix, PySpace);
  }

  // ---------------------------------------------------------------------------
  // replace_title: every title element
  // ---------------------------------------------------------------------------

  const TitleOpen := "<title>"
  const TitleClose := "</title>"

  /** `<title>([^<]*)</title>` at the start of t. */
  function TitleElement(t: string): Option<nat> {
    if !StartsWith(t, TitleOpen) then None
    else
      var n := RunWithout(t[|TitleOpen|..], '<');
      if StartsWith(t[|TitleOpen| + n..], TitleClose) then Some(|TitleOpen| + n + |TitleClose|)
      else None
  }

  /** The element's text, fixed, in a new element. */
  function ReplaceTitle(hit: string): string {
    if |hit| < |TitleOpen| + |TitleClose| then hit
    else TitleOpen + FixTitle(hit[|TitleOpen|..|hit| - |TitleClose|]) + TitleClose
  }

  function FixTitles(html: string): string {
    Sub(html, TitleElement, ReplaceTitle)
  }

  /** A page's title element gets the fixed title. */
  lemma TitleElementFixed(title: string)
    requires '<' !in title
    ensures FixTitles(TitleOpen + title + TitleClose) == TitleOpen + FixTitle(title) + TitleClose
  {
    var hit := TitleOpen + title + TitleClose;
    assert hit[|TitleOpen|..] == title + TitleClose;
    RunWithoutConcat(title, TitleClose, '<');
    assert hit[|TitleOpen| + |title|..] == TitleClose;
    assert hit + [] == hit;
    SubHitFirst(hit, [], TitleElement, ReplaceTitle);
    assert hit[|TitleOpen|..|hit| - |TitleClose|] == title;
  }

  // ---------------------------------------------------------------------------
  // fix_image_path and the CDN paths
  // ---------------------------------------------------------------------------

  const CdnHost := "https://cdn.prod.website-files.com/"
  const SiteId := "61aeaa63fc373a25c198ab33"
  const CdnBase := CdnHost + SiteId
  /** The site id with the underscore the exported file names carry. */
  const SitePrefix := SiteId + "_"

  /** fix_image_path: one leading site prefix dropped, the rest under the CDN base. */
  function FixImagePath(path: string): (r: string)
    ensures StartsWith(r, CdnBase + "/")
  {
    var name := if StartsWith(path, SitePrefix) then path[|SitePrefix|..] else path;
    StartsWithConcat(CdnBase + "/", name);
    CdnBase + "/" + name
  }

  /** A prefixed name goes where the unprefixed name goes. */
  lemma PrefixedImageSameAsPlain(name: string)
    requires !StartsWith(name, SitePrefix)
    ensures FixImagePath(SitePrefix + name) == FixImagePath(name) == CdnBase + "/" + name
  {
    StartsWithConcat(SitePrefix, name);
    assert (SitePrefix + name)[|SitePrefix|..] == name;
  }

  /** Only one prefix is dropped. */
  lemma OnePrefixDropped(name: string)
    ensures FixImagePath(SitePrefix + SitePrefix + name) == CdnBase + "/" + SitePrefix + name
  {
    var p := SitePrefix + SitePrefix + name;
    assert p == SitePrefix + (SitePrefix + name);
    StartsWithConcat(SitePrefix, SitePrefix + name);
    assert p[|SitePrefix|..] == SitePrefix + name;
  }

  const CssHref := "href=\"/css/"
  const HrefOpen := "href=\""

  /** `href="/css/(avir-site\.[^"]+\.css)"`. */
  const SiteStylesheet: Matcher := Then(Lit(CssHref + "avir-site."), QuotedEnding(".css"))

  /** `href="{CDN_BASE}/css/\1"`. */
  function StylesheetOnCdn(hit: string): string {
    if |hit| < |CssHref| then hit else HrefOpen + CdnBase + "/css/" + hit[|CssHref|..]
  }

  const ImagesDir := "/images/"

  /** `<name>="/images/([^"]+)"`, and `<name>="/images/(<lead>[^"]+)"`. */
  function ImageAttribute(name: string, lead: string): Matcher {
    Then(Lit(name + "=\"" + ImagesDir + lead), QuotedEnding(""))
  }

  /** The attribute with the path fix_image_path gives group 1. */
  function ImageOnCdn(name: string): string -> string {
    hit => var open := name + "=\"" + ImagesDir;
      if |hit| < |open| + 1 then hit
      else name + "=\"" + FixImagePath(hit[|open|..|hit| - 1]) + "\""
  }

  /** `{CDN_BASE}/61aeaa63fc373a25c198ab33_` as a pattern: CDN_BASE is put in
      unescaped, so each of its dots matches any character but a newline. */
  function Loose(p: string): Matcher {
    t => if p != [] && |p| <= |t|
            && forall i :: 0 <= i < |p| ==> (if p[i] == '.' then t[i] != '\n' else t[i] == p[i])
         then Some(|p|) else None
  }

  const DoublePrefixed := CdnBase + "/" + SitePrefix

  /** The URL prefix with the site prefix doubled: the dots admit other hosts too,
      `https://cdn-prod.website-files.com/...` among them. */
  lemma LooseHostMatches(rest: string)
    ensures var h := "https://cdn-prod.website-files.com/" + SiteId + "/" + SitePrefix;
      Loose(DoublePrefixed)(h + rest) == Some(|DoublePrefixed|)
  {
    var h := "https://cdn-prod.website-files.com/" + SiteId + "/" + SitePrefix;
    assert |h| == |DoublePrefixed|;
    forall i | 0 <= i < |DoublePrefixed|
      ensures if DoublePrefixed[i] == '.' then (h + rest)[i] != '\n' else (h + rest)[i] == DoublePrefixed[i]
    {
      assert (h + rest)[i] == h[i];
      if i < |CdnHost| {
        assert DoublePrefixed[i] == CdnHost[i];
      } else {
        assert DoublePrefixed[i] == h[i];
      }
    }
  }

  // ---------------------------------------------------------------------------
  // Fonts
  // ---------------------------------------------------------------------------

  /** The texts the script puts in: GOOGLE_FONTS_LINK, the CDN jQuery include and
      jquery_transition_fix. They are only ever inserted whole. */
  datatype Templates = Templates(fontsLink: string, jqueryTag: string, transitionScript: string)

  const FontsMarker := "fonts.googleapis.com/css2"
  const LeftBarMarker := ".left-bar { display: block"

  /** GOOGLE_FONTS_LINK holds the css2 stylesheet and the left-bar rule. */
  predicate FontsLinkMarked(tpl: Templates) {
    Contains(tpl.fontsLink, FontsMarker) && Contains(tpl.fontsLink, LeftBarMarker)
  }

  /** The old fonts block: three links and the `.tk-termina` style, under
      `<link href="https://fonts\.googleapis\.com"[^>]*>\s*<link href=
      "https://fonts\.gstatic\.com"[^>]*>\s*<link href="https://fonts\.googleapis\.com/css2
      [^>]*>\s*<style>\s*\.tk-termina[^<]*</style>`. */
  const OldFonts: Matcher :=
    Then(Lit("<link href=\"https://fonts.googleapis.com\""), Then(TagRest, Then(Spaces,
    Then(Lit("<link href=\"https://fonts.gstatic.com\""), Then(TagRest, Then(Spaces,
    Then(Lit("<link href=\"https://fonts.googleapis.com/css2"), Then(TagRest, Then(Spaces,
    Then(Lit("<style>"), Then(Spaces, Then(Lit(".tk-termina"), Then(Without('<'), Lit("</style>"))))))))))))))

  const ViewportTag := "<meta content=\"width=device-width, initial-scale=1\" name=\"viewport\"/>"

  /** Lines 115-122: without the css2 stylesheet, the fonts block goes after every
      viewport tag. */
  function AddFonts(html: string, tpl: Templates): string {
    if Contains(html, FontsMarker) then html
    else if Contains(html, ViewportTag) then Sub(html, Lit(ViewportTag), Append("\n  " + tpl.fontsLink))
    else html
  }

  /** Once put in, the block stops a second insertion. */
  lemma AddFontsIdempotent(html: string, tpl: Templates)
    requires FontsLinkMarked(tpl)
    ensures AddFonts(AddFonts(html, tpl), tpl) == AddFonts(html, tpl)
  {
    if !Contains(html, FontsMarker) && Contains(html, ViewportTag) {
      var link := "\n  " + tpl.fontsLink;
      match Search(html, Lit(ViewportTag))
      case None =>
        SearchNone(html, Lit(ViewportTag));
        SubNoHit(html, Lit(ViewportTag), Append(link));
      case Some(i) =>
        ContainsInConcat("\n  ", tpl.fontsLink, [], FontsMarker);
        assert link + [] == link;
        AppendHolds(MatchAt(html, Lit(ViewportTag), i), link, FontsMarker);
        SubShowsFirst(html, Lit(ViewportTag), Append(link), i);
        ContainsTrans(AddFonts(html, tpl), Append(link)(MatchAt(html, Lit(ViewportTag), i)), FontsMarker);
    }
  }

  // ---------------------------------------------------------------------------
  // Visibility CSS and the left bar
  // ---------------------------------------------------------------------------

  const PageContent := ".page-content"

  /** `\{opacity:\s*0;`. */
  const OpacityZero: Matcher := Then(Lit("{opacity:"), Then(Spaces, Lit("0;")))

  /** `\.page-content\s*\{opacity:\s*0;`. */
  const HiddenContent: Matcher := Then(Lit(PageContent), Then(Spaces, OpacityZero))

  const ShownContent := ".page-content {opacity:1;"

  const TransformKey := "transform:"
  const ShiftLeft := "translate(-20px)"

  /** `transform:\s*translate\(-20px\)`. */
  const ShiftedContent: Matcher := Then(Lit(TransformKey), Then(Spaces, Lit(ShiftLeft)))

  const UnshiftedContent := "transform: translate(0px)"

  /** Lines 125-134. */
  function ShowContent(html: string): string {
    Sub(Sub(html, HiddenContent, Const(ShownContent)), ShiftedContent, Const(UnshiftedContent))
  }

  lemma OpacityZeroAt(ws: string, rest: string)
    requires SpaceRun(ws) == |ws|
    ensures OpacityZero(("{opacity:" + (ws + "0;")) + rest) == Some(|"{opacity:" + (ws + "0;")|)
  {
    LitAt("0;", rest);
    SpacesThenAt(ws, Lit("0;"), "0;", rest);
    LitThenAt("{opacity:", Then(Spaces, Lit("0;")), ws + "0;", rest);
  }

  lemma HiddenContentAt(ws: string, t: string, rest: string)
    requires SpaceRun(ws) == |ws|
    requires t != [] && !PySpace(t[0]) && OpacityZero(t + rest) == Some(|t|)
    ensures HiddenContent((PageContent + (ws + t)) + rest) == Some(|PageContent + (ws + t)|)
  {
    SpacesThenAt(ws, OpacityZero, t, rest);
    LitThenAt(PageContent, Then(Spaces, OpacityZero), ws + t, rest);
  }

  /** A hidden rule, however it spaces its parts, is made visible. */
  lemma HiddenRuleShown(ws1: string, ws2: string, rest: string)
    requires SpaceRun(ws1) == |ws1| && SpaceRun(ws2) == |ws2|
    requires NoHit(rest, HiddenContent)
    ensures Sub(PageContent + ws1 + "{opacity:" + ws2 + "0;" + rest, HiddenContent, Const(ShownContent))
         == ShownContent + rest
  {
    var t := "{opacity:" + (ws2 + "0;");
    OpacityZeroAt(ws2, rest);
    HiddenContentAt(ws1, t, rest);
    var hit := PageContent + (ws1 + t);
    Regroup5(PageContent, ws1, "{opacity:", ws2, "0;", rest);
    SubHitFirst(hit, rest, HiddenContent, Const(ShownContent));
    SubNoHit(rest, HiddenContent, Const(ShownContent));
  }

  /** A shifted rule, however it spaces its parts, is moved back in place. */
  lemma ShiftUndone(ws: string, rest: string)
    requires SpaceRun(ws) == |ws|
    requires NoHit(rest, ShiftedContent)
    ensures Sub((TransformKey + (ws + ShiftLeft)) + rest, ShiftedContent, Const(UnshiftedContent))
         == UnshiftedContent + rest
  {
    LitAt(ShiftLeft, rest);
    SpacesThenAt(ws, Lit(ShiftLeft), ShiftLeft, rest);
    LitThenAt(TransformKey, Then(Spaces, Lit(ShiftLeft)), ws + ShiftLeft, rest);
    SubHitFirst(TransformKey + (ws + ShiftLeft), rest, ShiftedContent, Const(UnshiftedContent));
    SubNoHit(rest, ShiftedContent, Const(UnshiftedContent));
  }

  const LeftBarRule := "\n    " + LeftBarMarker + " !important; }"

  /** `(\.page-content \{opacity:1[^}]+\})`. */
  const ShownRule: Matcher := Then(Lit(".page-content {opacity:1"), Then(SomeWithout('}'), Lit("}")))

  /** Lines 137-143: without a left-bar rule, one goes after every shown rule. */
  function AddLeftBar(html: string): string {
    if Contains(html, LeftBarMarker) then html else Sub(html, ShownRule, Append(LeftBarRule))
  }

  /** After the step the page has the rule, or it had no shown rule to put it after;
      either way a second run changes nothing. */
  lemma AddLeftBarIdempotent(html: string)
    ensures AddLeftBar(AddLeftBar(html)) == AddLeftBar(html)
  {
    if !Contains(html, LeftBarMarker) {
      match Search(html, ShownRule)
      case None =>
        SearchNone(html, ShownRule);
        SubNoHit(html, ShownRule, Append(LeftBarRule));
      case Some(i) =>
        ContainsSpliced(LeftBarRule, [], "\n    ", LeftBarMarker, " !important; }", []);
        AppendHolds(MatchAt(html, ShownRule, i), LeftBarRule, LeftBarMarker);
        SubShowsFirst(html, ShownRule, Append(LeftBarRule), i);
        ContainsTrans(AddLeftBar(html), Append(LeftBarRule)(MatchAt(html, ShownRule, i)), LeftBarMarker);
    }
  }

  /** When the fonts block went in, it brought the left-bar rule with it. */
  lemma FontsBringLeftBar(html: string, tpl: Templates)
    requires FontsLinkMarked(tpl) && Contains(AddFonts(html, tpl), LeftBarMarker)
    ensures AddLeftBar(AddFonts(html, tpl)) == AddFonts(html, tpl)
  {
  }

  // ---------------------------------------------------------------------------
  // Scripts and the hero video
  // ---------------------------------------------------------------------------

  /** The typekit include and its loader:
      `<script src="https://use\.typekit\.net/[^"]+\.js"[^>]*></script>\s*<script[^>]*>
      try\{Typekit\.load\(\);\}catch\(e\)\{\}</script>`. */
  const TypekitPair: Matcher :=
    Then(Lit("<script src=\"https://use.typekit.net/"), Then(QuotedEnding(".js"), Then(TagRest,
    Then(Lit("</script>"), Then(Spaces, Then(Lit("<script"), Then(TagRest,
    Lit("try{Typekit.load();}catch(e){}</script>"))))))))

  /** The WebFont include and loader, then a typekit pair. */
  const WebFontThenTypekit: Matcher :=
    Then(Lit("<script src=\"https://ajax.googleapis.com/ajax/libs/webfont/"),
    Then(QuotedEnding("/webfont.js"), Then(TagRest, Then(Lit("</script>"), Then(Spaces,
    Then(Lit("<script"), Then(TagRest, Then(Lit("WebFont.load({"), Then(SomeWithout('}'),
    Then(Lit("});</script>"), Then(Spaces, TypekitPair)))))))))))

  /** `<script src="/js/jquery-3\.5\.1\.min\.js"[^>]*></script>`. */
  const LocalJquery: Matcher :=
    Then(Lit("<script src=\"/js/jquery-3.5.1.min.js\""), Then(TagRest, Lit("</script>")))

  /** `<script src="/js/webflow\.js"[^>]*></script>`. */
  const LocalWebflow: Matcher := Then(Lit("<script src=\"/js/webflow.js\""), Then(TagRest, Lit("</script>")))

  const CdnWebflow := "<script src=\"https://cdn.prod.website-files.com/js/webflow.js\" type=\"text/javascript\"></script>"

  const ScriptJs := "<script src=\"/js/"

  /** `<script src="/js/(avir-site\.[^"]+\.js)"`. */
  const SiteChunk: Matcher := Then(Lit(ScriptJs + "avir-site."), QuotedEnding(".js"))

  /** `<script src="{CDN_BASE}/js/\1"`. */
  function ChunkOnCdn(hit: string): string {
    if |hit| < |ScriptJs| then hit else "<script src=\"" + CdnBase + "/js/" + hit[|ScriptJs|..]
  }

  const LocalVideo := "src=\"/videos/hero-animation.mp4\""
  const DropboxVideo :=
    "src=\"https://www.dropbox.com" + "/s/smwoyb18m04n2jn/" + "Animation%20Longer%20Lines%20" + "Website.mp4?raw=1\""

  const LiveChatStart := "<!-- Start of LiveChat"
  const LiveChatEnd := "<!-- End of LiveChat code -->"

  /** `<!-- Start of LiveChat.*?<!-- End of LiveChat code -->` under DOTALL. */
  const LiveChat: Matcher := Then(Lit(LiveChatStart), Lazy(Lit(LiveChatEnd)))

  /** The old transition script:
      `<script>\s*let transitionTrigger = \$\("[^"]+"\);.*?introDurationMS\);\s*</script>`. */
  const OldTransition: Matcher :=
    Then(Lit("<script>"), Then(Spaces, Then(Lit("let transitionTrigger = $(\""), Then(QuotedEnding(""),
    Then(Lit(");"), Lazy(Then(Lit("introDurationMS);"), Then(Spaces, Lit("</script>")))))))))

  /** The retry script: `<script>\s*\(function\(\)\s*\{\s*function tryInit\(\).*?
      setTimeout\(tryInit, 3000\);.*?\}\)\(\);\s*</script>`. */
  const TryInit: Matcher :=
    Then(Lit("<script>"), Then(Spaces, Then(Lit("(function()"), Then(Spaces, Then(Lit("{"),
    Then(Spaces, Then(Lit("function tryInit()"), Lazy(Then(Lit("setTimeout(tryInit, 3000);"),
    Lazy(Then(Lit("})();"), Then(Spaces, Lit("</script>")))))))))))))

  /** The LiveChat pattern takes a block up to the first end marker. */
  lemma LiveChatEndFound(body: string, rest: string)
    requires forall k :: 0 <= k < |body| ==> !OccursAt(body + (LiveChatEnd + rest), LiveChatEnd, k)
    ensures Lazy(Lit(LiveChatEnd))(body + (LiveChatEnd + rest)) == Some(|body| + |LiveChatEnd|)
  {
    var y := LiveChatEnd + rest;
    LitAt(LiveChatEnd, rest);
    forall k | 0 <= k < |body|
      ensures !(Lit(LiveChatEnd)((body + y)[k..]).Some? && Lit(LiveChatEnd)((body + y)[k..]).value <= |body + y| - k)
    {
      LitHitOccurs(body + y, LiveChatEnd, k);
    }
    LazyScanAt(Lit(LiveChatEnd), body, y);
  }

  /** The LiveChat pattern takes a block up to the first end marker. */
  lemma LiveChatAt(body: string, rest: string)
    requires forall k :: 0 <= k < |body| ==> !OccursAt(body + (LiveChatEnd + rest), LiveChatEnd, k)
    ensures LiveChat((LiveChatStart + (body + LiveChatEnd)) + rest)
         == Some(|LiveChatStart + (body + LiveChatEnd)|)
  {
    LiveChatEndFound(body, rest);
    assert (body + LiveChatEnd) + rest == body + (LiveChatEnd + rest);
    LitAt(LiveChatStart, (body + LiveChatEnd) + rest);
    ThenAt(Lit(LiveChatStart), Lazy(Lit(LiveChatEnd)), LiveChatStart, body + LiveChatEnd, rest);
    assert (LiveChatStart + (body + LiveChatEnd)) + rest == LiveChatStart + ((body + LiveChatEnd) + rest);
  }

  /** The LiveChat block goes up to the first end marker, and is removed whole. */
  lemma LiveChatRemoved(body: string, rest: string)
    requires forall k :: 0 <= k < |body| ==> !OccursAt(body + (LiveChatEnd + rest), LiveChatEnd, k)
    ensures Sub(LiveChatStart + body + LiveChatEnd + rest, LiveChat, Const(""))
         == Sub(rest, LiveChat, Const(""))
  {
    LiveChatAt(body, rest);
    var hit := LiveChatStart + (body + LiveChatEnd);
    assert LiveChatStart + body + LiveChatEnd + rest == hit + rest;
    SubHitFirst(hit, rest, LiveChat, Const(""));
  }

  // ---------------------------------------------------------------------------
  // Links
  // ---------------------------------------------------------------------------

  const IndexPage := "index"
  const IndexHref := HrefOpen + (IndexPage + HtmlExt) + "\""
  const RootHref := HrefOpen + "/" + "\""
  const HtmlExt := ".html"

  /** `href="([^"]+)\.html"`. */
  const PageHref: Matcher := Then(Lit(HrefOpen), QuotedEnding(HtmlExt))

  /** `href="/\1"`. */
  function RootedPage(hit: string): string {
    if |hit| < |HrefOpen| + |HtmlExt| + 1 then hit
    else HrefOpen + "/" + hit[|HrefOpen|..|hit| - |HtmlExt| - 1] + "\""
  }

  const DoubleSlashHref := HrefOpen + "//"
  const SlashHref := HrefOpen + "/"

  /** Lines 237-239. */
  function FixLinks(html: string): string {
    var c := ReplaceAll(html, IndexHref, RootHref);
    var c := Sub(c, PageHref, RootedPage);
    ReplaceAll(c, DoubleSlashHref, SlashHref)
  }

  /** In `href="v"` with no quote inside v, a text whose sixth character is a
      quote can only start at the attribute's start. */
  lemma HrefOnlyAtStart(v: string, p: string, k: nat)
    requires '"' !in v && |p| > |HrefOpen| && p[|HrefOpen| - 1] == '"'
    requires OccursAt(HrefOpen + v + "\"", p, k)
    ensures k == 0
  {
    var s := HrefOpen + v + "\"";
    assert s[k..k + |p|][|HrefOpen| - 1] == p[|HrefOpen| - 1];
    assert forall i :: |HrefOpen| <= i < |HrefOpen| + |v| ==> s[i] == v[i - |HrefOpen|];
  }

  /** So `href="v"` holds such a text only where the text's tail starts `v"`. */
  lemma QuotedOccurrence(v: string, p: string)
    requires '"' !in v && |p| > |HrefOpen| && p[..|HrefOpen|] == HrefOpen
    ensures Contains(HrefOpen + v + "\"", p) ==> StartsWith(v + "\"", p[|HrefOpen|..])
  {
    var s := HrefOpen + v + "\"";
    if Contains(s, p) {
      var k :| 0 <= k <= |s| - |p| && OccursAt(s, p, k);
      assert p[|HrefOpen| - 1] == HrefOpen[|HrefOpen| - 1];
      HrefOnlyAtStart(v, p, k);
      assert s[..|p|] == p;
      assert s[|HrefOpen|..] == v + "\"";
      assert (v + "\"")[..|p| - |HrefOpen|] == s[|HrefOpen|..|p|] == p[|HrefOpen|..];
    }
  }

  /** A quote-free text closed by a quote holds no text with a quote before its end. */
  lemma TailLacks(a: string, p: string, j: nat)
    requires '"' !in a && j + 1 < |p| && p[j] == '"'
    ensures !Contains(a + "\"", p)
  {
    forall k | 0 <= k <= |a + "\""| - |p| ensures !OccursAt(a + "\"", p, k) {
      assert (a + "\"")[k + j] == a[k + j];
    }
  }

  /** Two quote-free texts, each closed by a quote: one starts the other only if they are equal. */
  lemma QuotedPrefix(a: string, b: string)
    requires '"' !in a && '"' !in b && StartsWith(a + "\"", b + "\"")
    ensures a == b
  {
    var w := a + "\"";
    assert w[..|b| + 1][|b|] == '"';
    assert forall i :: 0 <= i < |a| ==> w[i] == a[i];
    assert w[..|b|] == b;
    assert w[..|a|] == a;
  }

  /** A page link names the index page exactly when it starts like the index link. */
  lemma IndexPageOnly(name: string)
    requires '"' !in name
    ensures StartsWith(name + HtmlExt + "\"", IndexHref[|HrefOpen|..]) ==> name == IndexPage
  {
    var v := name + HtmlExt;
    assert '"' !in v;
    FrontOfThree(HrefOpen, IndexPage + HtmlExt, "\"");
    if StartsWith(v + "\"", (IndexPage + HtmlExt) + "\"") {
      QuotedPrefix(v, IndexPage + HtmlExt);
      assert name == v[..|name|];
    }
  }

  /** `href="v.html"` is one match of the page pattern. */
  lemma PageHrefMatches(v: string)
    requires '"' !in v && |v| > |HtmlExt| && EndsWith(v, HtmlExt)
    ensures PageHref((HrefOpen + v + "\"") + []) == Some(|HrefOpen + v + "\""|)
  {
    QuotedEndingAt(HtmlExt, v, []);
    LitThenAt(HrefOpen, QuotedEnding(HtmlExt), v + "\"", []);
    ConcatAssoc(HrefOpen, v, "\"");
  }

  /** The replacement template on one matched page link. */
  lemma PageLinkTemplate(name: string)
    ensures RootedPage(HrefOpen + (name + HtmlExt) + "\"") == HrefOpen + ("/" + name) + "\""
  {
    var hit := HrefOpen + (name + HtmlExt) + "\"";
    ConcatAssoc(HrefOpen, name, HtmlExt);
    MiddleSlice(HrefOpen, name, HtmlExt, "\"");
    assert hit[|HrefOpen|..|hit| - |HtmlExt| - 1] == name;
    ConcatAssoc(HrefOpen, "/", name);
  }

  /** The rewrite of one matched page link, as the second link step does it. */
  lemma PageLinkRewritten(name: string)
    requires name != [] && '"' !in name
    ensures Sub(HrefOpen + (name + HtmlExt) + "\"", PageHref, RootedPage) == HrefOpen + ("/" + name) + "\""
  {
    var v := name + HtmlExt;
    var hit := HrefOpen + v + "\"";
    assert v[|v| - |HtmlExt|..] == HtmlExt;
    PageHrefMatches(v);
    SubHitFirst(hit, [], PageHref, RootedPage);
    assert hit + [] == hit;
    assert Sub([], PageHref, RootedPage) == [];
    PageLinkTemplate(name);
  }

  /** The page pattern alone would send the index page to `/index`: the
      first link step must run before it. */
  lemma IndexNeedsOwnStep()
    ensures Sub(IndexHref, PageHref, RootedPage) == HrefOpen + ("/" + IndexPage) + "\""
  {
    PageLinkRewritten(IndexPage);
  }

  /** The first link step leaves a link that does not start like the index link. */
  lemma NotIndexKept(v: string)
    requires '"' !in v && !StartsWith(v + "\"", (IndexPage + HtmlExt) + "\"")
    ensures ReplaceAll(HrefOpen + v + "\"", IndexHref, RootHref) == HrefOpen + v + "\""
  {
    FrontOfThree(HrefOpen, IndexPage + HtmlExt, "\"");
    QuotedOccurrence(v, IndexHref);
    ReplaceAllAbsent(HrefOpen + v + "\"", IndexHref, RootHref);
  }

  /** The third link step leaves a link whose value has no leading double slash. */
  lemma SingleSlashKept(name: string)
    requires name != [] && '"' !in name && name[0] != '/'
    ensures ReplaceAll(HrefOpen + ("/" + name) + "\"", DoubleSlashHref, SlashHref) == HrefOpen + ("/" + name) + "\""
  {
    FrontOfThree(HrefOpen, "//", []);
    assert DoubleSlashHref + [] == DoubleSlashHref;
    assert (("/" + name) + "\"")[1] == name[0];
    QuotedOccurrence("/" + name, DoubleSlashHref);
    ReplaceAllAbsent(HrefOpen + ("/" + name) + "\"", DoubleSlashHref, SlashHref);
  }

  lemma RootNoPageAt(k: nat)
    requires k < |RootHref|
    ensures !Hits(PageHref, RootHref[k..])
  {
    var t := RootHref[k..];
    if k == 0 {
      FrontOfThree(HrefOpen, "/", "\"");
      LitAt(HrefOpen, "/" + "\"");
      QuotedEndingShort(HtmlExt, "/");
      ThenSecondMiss(Lit(HrefOpen), QuotedEnding(HtmlExt), t, |HrefOpen|);
    } else {
      assert !StartsWith(t, HrefOpen) by {
        if k < 3 {
          assert t[0] == RootHref[k] != HrefOpen[0];
        }
      }
      LitThenMiss(HrefOpen, QuotedEnding(HtmlExt), t);
    }
  }

  /** The root link is no page link. */
  lemma RootNoPage()
    ensures NoHit(RootHref, PageHref)
  {
    forall k | 0 <= k < |RootHref| ensures !Hits(PageHref, RootHref[k..]) {
      RootNoPageAt(k);
    }
  }

  lemma RootNoDoubleSlash()
    ensures !Contains(RootHref, DoubleSlashHref)
  {
    assert |RootHref| == |DoubleSlashHref|;
    assert RootHref[|RootHref| - 1] == '"' != DoubleSlashHref[|RootHref| - 1];
    assert !OccursAt(RootHref, DoubleSlashHref, 0);
  }

  /** A link to the index page becomes a link to the root. */
  lemma IndexLinkRooted()
    ensures FixLinks(IndexHref) == RootHref
  {
    ReplaceWhole(IndexHref, RootHref);
    RootNoPage();
    SubNoHit(RootHref, PageHref, RootedPage);
    RootNoDoubleSlash();
    ReplaceAllAbsent(RootHref, DoubleSlashHref, SlashHref);
  }

  /** A relative link `href="name.html"` becomes the root-relative `href="/name"`. */
  lemma PageLinkRooted(name: string)
    requires name != [] && '"' !in name && name != IndexPage && name[0] != '/'
    ensures FixLinks(HrefOpen + (name + HtmlExt) + "\"") == HrefOpen + ("/" + name) + "\""
  {
    IndexPageOnly(name);
    FrontOfThree(HrefOpen, IndexPage + HtmlExt, "\"");
    NotIndexKept(name + HtmlExt);
    PageLinkRewritten(name);
    SingleSlashKept(name);
  }

  /** A root-relative link `href="/name.html"` loses its extension and keeps one slash. */
  lemma RootedLinkKept(name: string)
    requires name != [] && '"' !in name && name[0] != '/'
    ensures FixLinks(HrefOpen + ("/" + name + HtmlExt) + "\"") == HrefOpen + ("/" + name) + "\""
  {
    var v := "/" + name + HtmlExt;
    assert (v + "\"")[0] == '/';
    NotIndexKept(v);
    PageLinkRewritten("/" + name);
    DoubleSlashDropped(name);
  }

  /** The third link step drops the first slash of a doubled one. */
  lemma DoubleSlashDropped(name: string)
    requires '"' !in name
    ensures ReplaceAll(HrefOpen + ("/" + ("/" + name)) + "\"", DoubleSlashHref, SlashHref)
         == HrefOpen + ("/" + name) + "\""
  {
    var rest := name + "\"";
    assert HrefOpen + ("/" + ("/" + name)) + "\"" == DoubleSlashHref + rest;
    TailLacks(name, DoubleSlashHref, 5);
    ReplaceLeading(DoubleSlashHref, rest, SlashHref);
    assert SlashHref + rest == HrefOpen + ("/" + name) + "\"";
  }

  // ---------------------------------------------------------------------------
  // fix_html_file
  // ---------------------------------------------------------------------------

  /** Titles, font scripts, stylesheet and image paths, lines 57-110. */
  function FixPaths(content: string): string {
    var c := FixTitles(content);
    var c := Sub(c, TypekitPair, Const(""));
    var c := Sub(c, WebFontThenTypekit, Const(""));
    var c := Sub(c, SiteStylesheet, StylesheetOnCdn);
    var c := Sub(c, ImageAttribute("src", ""), ImageOnCdn("src"));
    var c := Sub(c, ImageAttribute("content", ""), ImageOnCdn("content"));
    var c := Sub(c, ImageAttribute("href", SitePrefix), ImageOnCdn("href"));
    Sub(c, Loose(DoublePrefixed), Const(CdnBase + "/"))
  }

  /** Fonts, visibility and the left bar, lines 112-143. */
  function FixStyles(c: string, tpl: Templates): string {
    var c := Sub(c, OldFonts, Const(tpl.fontsLink));
    var c := AddFonts(c, tpl);
    var c := ShowContent(c);
    AddLeftBar(c)
  }

  /** Scripts and media, lines 146-235. */
  function FixScripts(c: string, tpl: Templates): string {
    var c := Sub(c, LocalJquery, Const(tpl.jqueryTag));
    var c := Sub(c, LocalWebflow, Const(CdnWebflow));
    var c := Sub(c, SiteChunk, ChunkOnCdn);
    var c := ReplaceAll(c, LocalVideo, DropboxVideo);
    var c := Sub(c, LiveChat, Const(""));
    var c := Sub(c, OldTransition, Const(tpl.transitionScript));
    Sub(c, TryInit, Const(""))
  }

  /** The page after the whole pipeline, lines 57-239. */
  function FixedHtml(content: string, tpl: Templates): string {
    FixLinks(FixScripts(FixStyles(FixPaths(content), tpl), tpl))
  }

  /** The first group of substitutions, rebinding the page text. */
  method RepairPaths(content: string) returns (c: string)
    ensures c == FixPaths(content)
  {
    c := FixTitles(content);
    c := Sub(c, TypekitPair, Const(""));
    c := Sub(c, WebFontThenTypekit, Const(""));
    c := Sub(c, SiteStylesheet, StylesheetOnCdn);
    c := Sub(c, ImageAttribute("src", ""), ImageOnCdn("src"));
    c := Sub(c, ImageAttribute("content", ""), ImageOnCdn("content"));
    c := Sub(c, ImageAttribute("href", SitePrefix), ImageOnCdn("href"));
    c := Sub(c, Loose(DoublePrefixed), Const(CdnBase + "/"));
  }

  /** The style substitutions, two of them guarded. */
  method RepairStyles(content: string, tpl: Templates) returns (c: string)
    ensures c == FixStyles(content, tpl)
  {
    c := Sub(content, OldFonts, Const(tpl.fontsLink));
    if !Contains(c, FontsMarker) && Contains(c, ViewportTag) {
      c := Sub(c, Lit(ViewportTag), Append("\n  " + tpl.fontsLink));
    }
    c := Sub(c, HiddenContent, Const(ShownContent));
    c := Sub(c, ShiftedContent, Const(UnshiftedContent));
    if !Contains(c, LeftBarMarker) {
      c := Sub(c, ShownRule, Append(LeftBarRule));
    }
  }

  /** The script and media substitutions. */
  method RepairScripts(content: string, tpl: Templates) returns (c: string)
    ensures c == FixScripts(content, tpl)
  {
    c := Sub(content, LocalJquery, Const(tpl.jqueryTag));
    c := Sub(c, LocalWebflow, Const(CdnWebflow));
    c := Sub(c, SiteChunk, ChunkOnCdn);
    c := ReplaceAll(c, LocalVideo, DropboxVideo);
    c := Sub(c, LiveChat, Const(""));
    c := Sub(c, OldTransition, Const(tpl.transitionScript));
    c := Sub(c, TryInit, Const(""));
  }

  /** The link substitutions. */
  method RepairLinks(content: string) returns (c: string)
    ensures c == FixLinks(content)
  {
    c := ReplaceAll(content, IndexHref, RootHref);
    c := Sub(c, PageHref, RootedPage);
    c := ReplaceAll(c, DoubleSlashHref, SlashHref);
  }

  /** fix_html_file on the text of one page: the new text, and whether it is
      written back. */
  method FixHtmlFile(content: string, tpl: Templates) returns (updated: string, write: bool)
    ensures updated == FixedHtml(content, tpl)
    ensures write <==> updated != content
  {
    var c := RepairPaths(content);
    c := RepairStyles(c, tpl);
    c := RepairScripts(c, tpl);
    updated := RepairLinks(c);
    write := updated != content;
  }
}

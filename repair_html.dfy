/** scripts/repair-html.py: localise one page saved from the live site. CDN URLs
    become root-relative, the subresource-integrity attributes go, a collection
    page gets the title its slug spells, missing description and og:title metas
    are added after the title, and links to the www host move to the apex host.
    Each step is a function of the text; the script's function rebinds one local
    through them. */
module RepairHtml {
  import opened Text
  import opened Rewrite

  // ---------------------------------------------------------------------------
  // Steps 1 and 2: CDN URLs
  // ---------------------------------------------------------------------------

  /** `https://cdn.prod.website-files.com/`, the start of every CDN URL. */
  const CdnRoot := "https://" + "cdn.prod.website-files.com" + "/"
  const SiteId := "61aeaa63fc373a25c198ab33"
  const BlogId := "61d85621390c3d3f845db5b4"
  const SiteRoot := CdnRoot + SiteId + "/"
  const BlogRoot := CdnRoot + BlogId + "/"
  /** The site's stylesheet directory on the CDN. */
  const CssCdn := SiteRoot + "css/"
  const CssLocal := "/css/"
  const ImagesDir := "/images/"

  /** The local name of a CDN directory: `/images/<directory>_`. */
  function ImagesPrefix(dir: string): string {
    ImagesDir + dir + "_"
  }

  /** Step 1: the stylesheet directory becomes `/css/`. */
  function LocaliseCss(html: string): string {
    ReplaceAll(html, CssCdn, CssLocal)
  }

  /** Step 2, for the site's own files. */
  function LocaliseSite(html: string): string {
    ReplaceAll(html, SiteRoot, ImagesPrefix(SiteId))
  }

  /** Step 2, for the blog's files. */
  function LocaliseBlog(html: string): string {
    ReplaceAll(html, BlogRoot, ImagesPrefix(BlogId))
  }

  /** `https://cdn\.prod\.website-files\.com/([^/]+)/` at the start of t: the root,
      a non-empty directory free of `/`, and the `/` that ends it. */
  function CdnDirectory(t: string): (r: Option<nat>)
    ensures r.Some? ==> |CdnRoot| + 2 <= r.value <= |t|
  {
    if !StartsWith(t, CdnRoot) then None
    else
      var q := RunWithout(t[|CdnRoot|..], '/');
      if 0 < q && |CdnRoot| + q < |t| then Some(|CdnRoot| + q + 1) else None
  }

  /** The template `/images/\1_` applied to a CdnDirectory match. */
  function DirectoryToImages(hit: string): string {
    if |hit| < |CdnRoot| + 1 then hit else ImagesPrefix(hit[|CdnRoot|..|hit| - 1])
  }

  /** Step 2, for every other CDN directory. */
  function LocaliseOther(html: string): string {
    Sub(html, CdnDirectory, DirectoryToImages)
  }

  /** Steps 1 and 2 in the script's order. */
  function LocaliseCdn(html: string): string {
    LocaliseOther(LocaliseBlog(LocaliseSite(LocaliseCss(html))))
  }

  lemma CdnDirectoryLeads()
    ensures LeadsWith(CdnDirectory, CdnRoot)
  {
  }

  /** A directory after the CDN root is matched up to and including its slash. */
  lemma DirectoryMatches(dir: string, rest: string)
    requires dir != [] && '/' !in dir
    ensures CdnDirectory(CdnRoot + dir + "/" + rest) == Some(|CdnRoot| + |dir| + 1)
  {
    var t := CdnRoot + dir + "/" + rest;
    StartsWithConcat(CdnRoot, dir + "/" + rest);
    assert CdnRoot + dir + "/" + rest == CdnRoot + (dir + ("/" + rest));
    assert t[|CdnRoot|..] == dir + ("/" + rest);
    RunWithoutConcat(dir, "/" + rest, '/');
  }

  /** The generic rule turns every CDN directory URL into its local image name. */
  lemma DirectoryLocalised(dir: string, rest: string)
    requires dir != [] && '/' !in dir
    ensures LocaliseOther(CdnRoot + dir + "/" + rest) == ImagesPrefix(dir) + LocaliseOther(rest)
  {
    DirectoryMatches(dir, rest);
    var hit := CdnRoot + dir + "/";
    SubHitFirst(hit, rest, CdnDirectory, DirectoryToImages);
    assert hit[|CdnRoot|..|hit| - 1] == dir;
  }

  /** The site and blog rules give what the generic rule gives for those directories. */
  lemma SpecialDirectoriesAgree()
    ensures DirectoryToImages(SiteRoot) == ImagesPrefix(SiteId)
    ensures DirectoryToImages(BlogRoot) == ImagesPrefix(BlogId)
  {
    assert SiteRoot[|CdnRoot|..|SiteRoot| - 1] == SiteId;
    assert BlogRoot[|CdnRoot|..|BlogRoot| - 1] == BlogId;
  }

  /** A stylesheet URL becomes `/css/...`: step 1 rewrites it, and what is left no
      longer holds the CDN root for the later rules to see. */
  lemma StylesheetLocalised(rest: string)
    requires !Contains(rest, CdnRoot)
    ensures LocaliseCdn(CssCdn + rest) == CssLocal + rest
  {
    StartsWithConcat(CssCdn, rest);
    SubHitFirst(CssCdn, rest, Lit(CssCdn), Const(CssLocal));
    PieceAbsent(rest, CssCdn, CdnRoot);
    ReplaceAllAbsent(rest, CssCdn, CssLocal);
    assert LocaliseCss(CssCdn + rest) == CssLocal + rest;
    var s := CssLocal + rest;
    PieceAbsent(rest, SiteRoot, CdnRoot);
    AbsentAcross(CssLocal, rest, SiteRoot);
    ReplaceAllAbsent(s, SiteRoot, ImagesPrefix(SiteId));
    PieceAbsent(rest, BlogRoot, CdnRoot);
    AbsentAcross(CssLocal, rest, BlogRoot);
    ReplaceAllAbsent(s, BlogRoot, ImagesPrefix(BlogId));
    AbsentAcross(CssLocal, rest, CdnRoot);
    CdnDirectoryLeads();
    NoHitWithout(s, CdnDirectory, CdnRoot);
    SubNoHit(s, CdnDirectory, DirectoryToImages);
  }

  /** Why step 1 comes first: the generic rule alone would file the stylesheet
      directory under the images, as `/images/61aeaa63fc373a25c198ab33_css/...`. */
  lemma StylesheetOrderMatters(rest: string)
    ensures LocaliseOther(CssCdn + rest) == ImagesPrefix(SiteId) + LocaliseOther("css/" + rest)
  {
    assert CssCdn + rest == CdnRoot + SiteId + "/" + ("css/" + rest);
    DirectoryLocalised(SiteId, "css/" + rest);
  }

  // ---------------------------------------------------------------------------
  // Steps 3 and 4: subresource-integrity attributes
  // ---------------------------------------------------------------------------

  const IntegrityOpen := "integrity=\""
  const CrossoriginName := "crossorigin"
  const CrossoriginOpen := "crossorigin=\""

  /** `\s+` followed by open, `[^"]*` and `"`, at the start of t. The name starts
      with a letter, so the white space run is all the leading white space. */
  function SpacedAttribute(t: string, open: string): (r: Option<nat>)
    ensures r.Some? ==> r.value <= |t|
  {
    var w := SpaceRun(t);
    if w == 0 || !StartsWith(t[w..], open) then None
    else
      var e := w + |open| + RunWithout(t[w + |open|..], '"');
      if e < |t| then Some(e + 1) else None
  }

  function IntegrityAttribute(t: string): Option<nat> {
    SpacedAttribute(t, IntegrityOpen)
  }

  function CrossoriginAttribute(t: string): Option<nat> {
    SpacedAttribute(t, CrossoriginOpen)
  }

  /** `\s+crossorigin(?=\s|>|/>)`: the attribute without a value. The lookahead
      looks past the match without taking part in it. */
  function BareCrossorigin(t: string): (r: Option<nat>)
    ensures r.Some? ==> r.value <= |t|
  {
    var w := SpaceRun(t);
    if w == 0 || !StartsWith(t[w..], CrossoriginName) then None
    else
      var e := w + |CrossoriginName|;
      if e < |t| && (PySpace(t[e]) || t[e] == '>' || StartsWith(t[e..], "/>")) then Some(e)
      else None
  }

  /** Steps 3 and 4 in the script's order. */
  function DropIntegrity(html: string): string {
    Sub(Sub(Sub(html, IntegrityAttribute, Const("")), CrossoriginAttribute, Const("")),
        BareCrossorigin, Const(""))
  }

  /** A white space run that the attribute opener follows, as SpacedAttribute sees it. */
  lemma SpacedAttributeAt(t: string, ws: string, open: string, v: string, rest: string)
    requires t == ws + (open + (v + ("\"" + rest)))
    requires ws != [] && forall k :: 0 <= k < |ws| ==> PySpace(ws[k])
    requires open != [] && !PySpace(open[0]) && '"' !in v
    ensures SpacedAttribute(t, open) == Some(|ws| + |open| + |v| + 1)
  {
    var u := open + (v + ("\"" + rest));
    SpaceRunConcat(ws, u);
    assert t[|ws|..] == u;
    StartsWithConcat(open, v + ("\"" + rest));
    assert t[|ws| + |open|..] == v + ("\"" + rest);
    RunWithoutConcat(v, "\"" + rest, '"');
  }

  /** An attribute `\s+integrity="..."` is dropped together with the white space
      before it. */
  lemma IntegrityDropped(ws: string, v: string, rest: string)
    requires ws != [] && forall k :: 0 <= k < |ws| ==> PySpace(ws[k])
    requires '"' !in v
    ensures Sub(ws + IntegrityOpen + v + "\"" + rest, IntegrityAttribute, Const(""))
         == Sub(rest, IntegrityAttribute, Const(""))
  {
    var hit := ws + IntegrityOpen + v + "\"";
    assert IntegrityAttribute(hit + rest) == Some(|hit|) by {
      assert hit + rest == ws + (IntegrityOpen + (v + ("\"" + rest)));
      SpacedAttributeAt(hit + rest, ws, IntegrityOpen, v, rest);
    }
    SubHitFirst(hit, rest, IntegrityAttribute, Const(""));
  }

  /** So is `\s+crossorigin="..."`. */
  lemma CrossoriginDropped(ws: string, v: string, rest: string)
    requires ws != [] && forall k :: 0 <= k < |ws| ==> PySpace(ws[k])
    requires '"' !in v
    ensures Sub(ws + CrossoriginOpen + v + "\"" + rest, CrossoriginAttribute, Const(""))
         == Sub(rest, CrossoriginAttribute, Const(""))
  {
    var hit := ws + CrossoriginOpen + v + "\"";
    assert CrossoriginAttribute(hit + rest) == Some(|hit|) by {
      assert hit + rest == ws + (CrossoriginOpen + (v + ("\"" + rest)));
      SpacedAttributeAt(hit + rest, ws, CrossoriginOpen, v, rest);
    }
    SubHitFirst(hit, rest, CrossoriginAttribute, Const(""));
  }

  /** A bare `crossorigin` goes when white space, `>` or `/>` follows it, and that
      follower stays. */
  lemma BareCrossoriginDropped(ws: string, rest: string)
    requires ws != [] && forall k :: 0 <= k < |ws| ==> PySpace(ws[k])
    requires rest != [] && (PySpace(rest[0]) || rest[0] == '>' || StartsWith(rest, "/>"))
    ensures Sub(ws + CrossoriginName + rest, BareCrossorigin, Const(""))
         == Sub(rest, BareCrossorigin, Const(""))
  {
    var t := ws + CrossoriginName + rest;
    assert t == ws + (CrossoriginName + rest);
    SpaceRunConcat(ws, CrossoriginName + rest);
    assert t[|ws|..] == CrossoriginName + rest;
    StartsWithConcat(CrossoriginName, rest);
    assert t[|ws| + |CrossoriginName|..] == rest;
    SubHitFirst(ws + CrossoriginName, rest, BareCrossorigin, Const(""));
  }

  /** A bare `crossorigin` followed by anything else, `=` say, is kept. */
  lemma BareCrossoriginKept(ws: string, rest: string)
    requires ws != [] && forall k :: 0 <= k < |ws| ==> PySpace(ws[k])
    requires rest != [] && !PySpace(rest[0]) && rest[0] != '>' && rest[0] != '/'
    ensures BareCrossorigin(ws + CrossoriginName + rest) == None
  {
    var t := ws + CrossoriginName + rest;
    assert t == ws + (CrossoriginName + rest);
    SpaceRunConcat(ws, CrossoriginName + rest);
    assert t[|ws| + |CrossoriginName|..] == rest;
  }

  // ---------------------------------------------------------------------------
  // Step 5: the title a collection item's slug spells
  // ---------------------------------------------------------------------------

  const SlugOpen := "data-wf-item-slug=\""
  const TitleOpen := "<title>"
  const TitleClose := "</title>"

  /** `data-wf-item-slug="([^"]+)"` at the start of t. */
  function SlugAttribute(t: string): (r: Option<nat>)
    ensures r.Some? ==> |SlugOpen| + 2 <= r.value <= |t|
  {
    if !StartsWith(t, SlugOpen) then None
    else
      var q := RunWithout(t[|SlugOpen|..], '"');
      if 0 < q && |SlugOpen| + q < |t| then Some(|SlugOpen| + q + 1) else None
  }

  /** Group 1 of a slug match: the value between the quotes. */
  function SlugValue(hit: string): string
    requires |SlugOpen| + 1 <= |hit|
  {
    hit[|SlugOpen|..|hit| - 1]
  }

  /** Python `str.capitalize` on ASCII: the first letter upper case, the rest lower. */
  function Capitalize(w: string): (r: string)
    ensures |r| == |w|
  {
    if w == [] then [] else [Upper(w[0])] + LowerStr(w[1..])
  }

  function CapitalizeAll(words: seq<string>): seq<string> {
    seq(|words|, i requires 0 <= i < |words| => Capitalize(words[i]))
  }

  /** The title a slug spells: its `-`-separated words capitalised, joined by spaces. */
  function SlugTitle(slug: string): string {
    Join(CapitalizeAll(Split(slug, '-')), ' ')
  }

  function TitleElementOf(title: string): string {
    TitleOpen + title + TitleClose
  }

  const GenericTitle := TitleElementOf("AVIR")

  /** Step 5: on a page carrying a slug, every generic title names the page by it. */
  function Retitle(html: string): string {
    match Search(html, SlugAttribute)
    case None => html
    case Some(i) =>
      ReplaceAll(html, GenericTitle, TitleElementOf(SlugTitle(SlugValue(MatchAt(html, SlugAttribute, i)))))
  }

  lemma LowerCapitalize(w: string)
    ensures LowerStr(Capitalize(w)) == LowerStr(w)
  {
  }

  lemma {:induction false} LowerJoinCapitalized(words: seq<string>)
    requires |words| >= 1
    ensures LowerStr(Join(CapitalizeAll(words), ' ')) == LowerStr(Join(words, ' '))
  {
    LowerCapitalize(words[0]);
    if |words| > 1 {
      LowerJoinCapitalized(words[1..]);
      assert CapitalizeAll(words)[1..] == CapitalizeAll(words[1..]);
      LowerStrConcat(Capitalize(words[0]) + [' '], Join(CapitalizeAll(words[1..]), ' '));
      LowerStrConcat(Capitalize(words[0]), [' ']);
      LowerStrConcat(words[0] + [' '], Join(words[1..], ' '));
      LowerStrConcat(words[0], [' ']);
    }
  }

  /** Joining words on `-` and turning each `-` into a space is joining them on spaces. */
  lemma {:induction false} JoinHyphensAsSpaces(words: seq<string>)
    requires |words| >= 1 && forall i :: 0 <= i < |words| ==> '-' !in words[i]
    ensures MapChar(Join(words, '-'), '-', ' ') == Join(words, ' ')
  {
    MapCharNoop(words[0], '-', ' ');
    if |words| > 1 {
      JoinHyphensAsSpaces(words[1..]);
      MapCharConcat(words[0] + ['-'], Join(words[1..], '-'), '-', ' ');
      MapCharConcat(words[0], ['-'], '-', ' ');
    }
  }

  /** Apart from letter case, the title is the slug with its hyphens made spaces. */
  lemma SlugTitleCaseless(slug: string)
    ensures LowerStr(SlugTitle(slug)) == LowerStr(MapChar(slug, '-', ' '))
  {
    var words := Split(slug, '-');
    JoinSplit(slug, '-');
    JoinHyphensAsSpaces(words);
    LowerJoinCapitalized(words);
  }

  /** For a slug without spaces, the title's words are the slug's words capitalised. */
  lemma SlugTitleWords(slug: string)
    requires ' ' !in slug
    ensures Split(SlugTitle(slug), ' ') == CapitalizeAll(Split(slug, '-'))
  {
    var words := Split(slug, '-');
    SplitKeepsOut(slug, '-', ' ');
    forall i | 0 <= i < |words| ensures ' ' !in CapitalizeAll(words)[i] {
      assert ' ' !in words[i];
    }
    SplitJoin(CapitalizeAll(words), ' ');
  }

  lemma SlugAttributeLeads()
    ensures LeadsWith(SlugAttribute, SlugOpen)
  {
  }

  /** A page without a slug attribute keeps its title. */
  lemma RetitleWithoutSlug(html: string)
    requires !Contains(html, SlugOpen)
    ensures Retitle(html) == html
  {
    SlugAttributeLeads();
    NoHitWithout(html, SlugAttribute, SlugOpen);
    SearchNone(html, SlugAttribute);
  }

  /** With a slug, the page's one generic title becomes the slug's title and the
      rest of the page is kept. */
  lemma RetitleOnce(html: string, i: nat, j: nat)
    requires Search(html, SlugAttribute) == Some(i)
    requires OccursAt(html, GenericTitle, j)
    requires forall k: nat :: k != j ==> !OccursAt(html, GenericTitle, k)
    ensures var slug := SlugValue(MatchAt(html, SlugAttribute, i));
      Retitle(html) == html[..j] + TitleElementOf(SlugTitle(slug)) + html[j + |GenericTitle|..]
  {
    var slug := SlugValue(MatchAt(html, SlugAttribute, i));
    ReplaceAllOnce(html, GenericTitle, TitleElementOf(SlugTitle(slug)), j);
  }

  // ---------------------------------------------------------------------------
  // Steps 6 and 7: description and og:title metas after the title
  // ---------------------------------------------------------------------------

  const DescriptionMarker := "name=\"description\""
  const OgTitleMarker := "property=\"og:title\""
  const MetaOpen := "<meta content=\""
  const DescriptionClose := "\" " + DescriptionMarker + "/>"
  const OgTitleClose := "\" " + OgTitleMarker + "/>"

  /** `<title>[^<]+</title>` at the start of t. */
  function TitleElement(t: string): (r: Option<nat>)
    ensures r.Some? ==> |TitleOpen| + 1 + |TitleClose| <= r.value <= |t|
  {
    if !StartsWith(t, TitleOpen) then None
    else
      var q := RunWithout(t[|TitleOpen|..], '<');
      if 0 < q && StartsWith(t[|TitleOpen| + q..], TitleClose)
      then Some(|TitleOpen| + q + |TitleClose|) else None
  }

  /** Group 1 of a title match: the text between the tags. */
  function TitleText(hit: string): string
    requires |TitleOpen| + |TitleClose| <= |hit|
  {
    hit[|TitleOpen|..|hit| - |TitleClose|]
  }

  /** `<meta content="[^"]*" name="description"/>` at the start of t. */
  function DescriptionTag(t: string): (r: Option<nat>)
    ensures r.Some? ==> r.value <= |t|
  {
    if !StartsWith(t, MetaOpen) then None
    else
      var e := |MetaOpen| + RunWithout(t[|MetaOpen|..], '"');
      if StartsWith(t[e..], DescriptionClose) then Some(e + |DescriptionClose|) else None
  }

  function DescriptionMeta(title: string): string {
    MetaOpen + title + DescriptionClose
  }

  function OgTitleMeta(title: string): string {
    "\n" + MetaOpen + title + OgTitleClose
  }

  /** The text of the page's first title element, if it has one. */
  function FirstTitle(html: string): Option<string> {
    match Search(html, TitleElement)
    case None => None
    case Some(i) => Some(TitleText(MatchAt(html, TitleElement, i)))
  }

  /** Step 6: without a description, one follows every title element. */
  function AddDescription(html: string): string {
    if Contains(html, DescriptionMarker) then html
    else match FirstTitle(html)
      case None => html
      case Some(title) => Sub(html, TitleElement, Append(DescriptionMeta(title)))
  }

  /** Step 7: without an og:title, one follows every description meta. */
  function AddOgTitle(html: string): string {
    if Contains(html, OgTitleMarker) then html
    else match FirstTitle(html)
      case None => html
      case Some(title) => Sub(html, DescriptionTag, Append(OgTitleMeta(title)))
  }

  lemma TitleElementLeads()
    ensures LeadsWith(TitleElement, TitleOpen)
  {
  }

  /** A title element with a non-empty text free of `<` is matched whole. */
  lemma TitleElementMatches(title: string, rest: string)
    requires title != [] && '<' !in title
    ensures TitleElement(TitleElementOf(title) + rest) == Some(|TitleElementOf(title)|)
  {
    var t := TitleElementOf(title) + rest;
    assert t == TitleOpen + (title + (TitleClose + rest));
    StartsWithConcat(TitleOpen, title + (TitleClose + rest));
    assert t[|TitleOpen|..] == title + (TitleClose + rest);
    RunWithoutConcat(title, TitleClose + rest, '<');
    assert t[|TitleOpen| + |title|..] == TitleClose + rest;
    StartsWithConcat(TitleClose, rest);
  }

  /** The first title of a page made of a, one title element and b, when a holds no
      `<title>`, is that element's text. */
  lemma FirstTitleIs(a: string, title: string, b: string)
    requires title != [] && '<' !in title && !Contains(a, TitleOpen)
    ensures FirstTitle(a + TitleElementOf(title) + b) == Some(title)
    ensures forall k :: 0 <= k < |a| ==> !Hits(TitleElement, (a + (TitleElementOf(title) + b))[k..])
  {
    var el := TitleElementOf(title);
    var page := a + el + b;
    assert page == a + (el + b);
    TitleElementMatches(title, b);
    TitleElementLeads();
    NoStraddle(a, el + b, TitleOpen);
    forall k | 0 <= k < |a| ensures !Hits(TitleElement, page[k..]) {
      assert !OccursAt(page, TitleOpen, k);
      assert page[k..][..|TitleOpen|] == page[k..k + |TitleOpen|];
    }
    assert page[|a|..] == el + b;
    assert HitsAt(page, TitleElement, |a|);
    forall k | 0 <= k < |a| ensures !HitsAt(page, TitleElement, k) {
      assert !Hits(TitleElement, page[k..]);
    }
    SearchFinds(page, TitleElement, |a|);
    assert MatchAt(page, TitleElement, |a|) == el;
  }

  /** A page with one title element and no description gets the description meta
      right after the title, carrying the title's text, and nothing else changes. */
  lemma DescriptionAdded(a: string, title: string, b: string)
    requires title != [] && '<' !in title
    requires !Contains(a, TitleOpen) && !Contains(b, TitleOpen)
    requires !Contains(a + TitleElementOf(title) + b, DescriptionMarker)
    ensures AddDescription(a + TitleElementOf(title) + b)
         == a + TitleElementOf(title) + DescriptionMeta(title) + b
  {
    var el := TitleElementOf(title);
    FirstTitleIs(a, title, b);
    TitleElementMatches(title, b);
    TitleElementLeads();
    NoHitWithout(b, TitleElement, TitleOpen);
    SubAround(a, el, b, TitleElement, Append(DescriptionMeta(title)));
    ConcatAssoc(a, el, DescriptionMeta(title));
  }

  /** Step 6 done twice is step 6 done once. */
  lemma AddDescriptionIdempotent(html: string)
    ensures AddDescription(AddDescription(html)) == AddDescription(html)
  {
    if !Contains(html, DescriptionMarker) && FirstTitle(html).Some? {
      var i := Search(html, TitleElement).value;
      var title := FirstTitle(html).value;
      var meta := DescriptionMeta(title);
      ContainsSpliced(meta, MetaOpen + title, "\" ", DescriptionMarker, "/>", []);
      AppendHolds(MatchAt(html, TitleElement, i), meta, DescriptionMarker);
      SubShowsFirst(html, TitleElement, Append(meta), i);
      ContainsTrans(AddDescription(html), Append(meta)(MatchAt(html, TitleElement, i)), DescriptionMarker);
    }
  }

  /** Step 7 done twice is step 7 done once. */
  lemma AddOgTitleIdempotent(html: string)
    ensures AddOgTitle(AddOgTitle(html)) == AddOgTitle(html)
  {
    if !Contains(html, OgTitleMarker) && FirstTitle(html).Some? {
      var meta := OgTitleMeta(FirstTitle(html).value);
      var rep := Append(meta);
      match Search(html, DescriptionTag)
      case None =>
        SearchNone(html, DescriptionTag);
        SubNoHit(html, DescriptionTag, rep);
      case Some(i) =>
        ContainsSpliced(meta, "\n" + MetaOpen + FirstTitle(html).value, "\" ", OgTitleMarker, "/>", []);
        AppendHolds(MatchAt(html, DescriptionTag, i), meta, OgTitleMarker);
        SubShowsFirst(html, DescriptionTag, rep, i);
        ContainsTrans(AddOgTitle(html), rep(MatchAt(html, DescriptionTag, i)), OgTitleMarker);
    }
  }

  lemma DescriptionTagLeads()
    ensures LeadsWith(DescriptionTag, MetaOpen)
  {
  }

  /** A description meta whose text holds no `"` is matched whole. */
  lemma DescriptionTagMatches(d: string, rest: string)
    requires '"' !in d
    ensures DescriptionTag(DescriptionMeta(d) + rest) == Some(|DescriptionMeta(d)|)
  {
    var t := DescriptionMeta(d) + rest;
    assert t == MetaOpen + (d + (DescriptionClose + rest));
    StartsWithConcat(MetaOpen, d + (DescriptionClose + rest));
    assert t[|MetaOpen|..] == d + (DescriptionClose + rest);
    RunWithoutConcat(d, DescriptionClose + rest, '"');
    assert t[|MetaOpen| + |d|..] == DescriptionClose + rest;
    StartsWithConcat(DescriptionClose, rest);
  }

  /** The step 7 substitution on a page whose first description meta is the one
      between a and b, with no other after it. */
  lemma OgTitleSub(a: string, d: string, b: string, meta: string)
    requires '"' !in d
    requires forall k :: 0 <= k < |a| ==> !HitsAt(a + DescriptionMeta(d) + b, DescriptionTag, k)
    requires NoHit(b, DescriptionTag)
    ensures Sub(a + DescriptionMeta(d) + b, DescriptionTag, Append(meta))
         == a + DescriptionMeta(d) + meta + b
  {
    var el := DescriptionMeta(d);
    var page := a + el + b;
    assert page == a + (el + b);
    forall k | 0 <= k < |a| ensures !Hits(DescriptionTag, (a + (el + b))[k..]) {
      assert !HitsAt(page, DescriptionTag, k);
    }
    DescriptionTagMatches(d, b);
    SubAround(a, el, b, DescriptionTag, Append(meta));
    ConcatAssoc(a, el, meta);
  }

  /** A page without an og:title whose first description meta is the one between a
      and b, with no other after it, gets the og:title meta right after that
      description, carrying the first title's text, and nothing else changes. */
  lemma OgTitleAdded(a: string, d: string, b: string, t: string)
    requires '"' !in d
    requires forall k :: 0 <= k < |a| ==> !HitsAt(a + DescriptionMeta(d) + b, DescriptionTag, k)
    requires NoHit(b, DescriptionTag)
    requires !Contains(a + DescriptionMeta(d) + b, OgTitleMarker)
    requires FirstTitle(a + DescriptionMeta(d) + b) == Some(t)
    ensures AddOgTitle(a + DescriptionMeta(d) + b)
         == a + DescriptionMeta(d) + OgTitleMeta(t) + b
  {
    OgTitleSub(a, d, b, OgTitleMeta(t));
  }

  /** A page that already has an og:title is left as it is by step 7. */
  lemma OgTitleKept(html: string)
    requires Contains(html, OgTitleMarker)
    ensures AddOgTitle(html) == html
  {
  }

  // ---------------------------------------------------------------------------
  // Steps 6 and 7 on one page
  // ---------------------------------------------------------------------------

  /** The quote-free pieces of a description meta's fixed text. */
  const MetaHead := "<meta content="
  const NameHead := " name="
  const DescriptionWord := "description"

  lemma MetaPieces()
    ensures MetaOpen == MetaHead + "\""
    ensures DescriptionClose == "\"" + NameHead + "\"" + DescriptionWord + "\"" + "/>"
    ensures '"' !in MetaHead && '"' !in NameHead && '"' !in DescriptionWord
  {
  }

  /** The quotes of a description meta whose text holds none: after `content=`,
      after the text, after `name=` and after `description`. */
  lemma DescriptionQuotes(d: string, i: nat)
    requires '"' !in d && i < |DescriptionMeta(d)| && DescriptionMeta(d)[i] == '"'
    ensures i == 14 || i == 15 + |d| || i == 22 + |d| || i == 34 + |d|
  {
    var dm := DescriptionMeta(d);
    MetaPieces();
    assert dm == MetaHead + "\"" + d + "\"" + NameHead + "\"" + DescriptionWord + "\"" + "/>";
  }

  lemma DescriptionChars(d: string)
    ensures var dm := DescriptionMeta(d);
      && |dm| == 37 + |d| && dm[0] == '<' && dm[|dm| - 1] == '>'
      && dm[9] == 't' && dm[12] == 't' && dm[14] == '"'
      && dm[16 + |d|] == ' ' && dm[23 + |d|] == 'd'
  {
    MetaPieces();
    var dm := DescriptionMeta(d);
    assert dm == MetaHead + "\"" + d + "\"" + NameHead + "\"" + DescriptionWord + "\"" + "/>";
  }

  /** A description meta holds no og:title marker. */
  lemma NoOgTitleInDescription(d: string)
    requires '"' !in d
    ensures !Contains(DescriptionMeta(d), OgTitleMarker)
  {
    var dm := DescriptionMeta(d);
    DescriptionChars(d);
    forall j | 0 <= j <= |dm| - |OgTitleMarker| ensures !OccursAt(dm, OgTitleMarker, j) {
      if OccursAt(dm, OgTitleMarker, j) {
        assert dm[j + 9] == OgTitleMarker[9] == '"';
        assert dm[j + 7] == OgTitleMarker[7] == 'y';
        assert dm[j + 10] == OgTitleMarker[10] == 'o';
        DescriptionQuotes(d, j + 9);
        assert false;
      }
    }
  }

  /** The one description marker of a description meta is the one it ends with. */
  lemma DescriptionMarkerAt(d: string, j: nat)
    requires '"' !in d && OccursAt(DescriptionMeta(d), DescriptionMarker, j)
    ensures j == 17 + |d|
  {
    var dm := DescriptionMeta(d);
    DescriptionChars(d);
    assert dm[j + 5] == DescriptionMarker[5] == '"';
    DescriptionQuotes(d, j + 5);
  }

  /** A description-tag match opens the meta, runs free of quotes, and holds the
      description marker 20 characters before its end. */
  lemma DescriptionTagShape(x: string)
    requires DescriptionTag(x).Some?
    ensures var n := DescriptionTag(x).value;
      && |MetaOpen| + |DescriptionClose| <= n
      && OccursAt(x, DescriptionMarker, n - 20)
      && forall v :: |MetaOpen| <= v < n - 22 ==> x[v] != '"'
  {
    var e := |MetaOpen| + RunWithout(x[|MetaOpen|..], '"');
    assert StartsWith(x[e..], DescriptionClose);
    assert DescriptionClose[2..20] == DescriptionMarker;
    assert x[e + 2..e + 20] == x[e..][..|DescriptionClose|][2..20];
    forall v | |MetaOpen| <= v < e ensures x[v] != '"' {
      assert x[v] == x[|MetaOpen|..][v - |MetaOpen|];
    }
  }

  /** Once a description meta follows p, in a page whose p and b hold no description
      marker, no description-tag match starts inside p. */
  lemma DescriptionFirstAfterInsert(p: string, d: string, b: string)
    requires '"' !in d && !Contains(p + b, DescriptionMarker)
    ensures forall k :: 0 <= k < |p| ==> !HitsAt(p + DescriptionMeta(d) + b, DescriptionTag, k)
  {
    var dm := DescriptionMeta(d);
    var s := p + dm + b;
    forall k | 0 <= k < |p| ensures !HitsAt(s, DescriptionTag, k) {
      if HitsAt(s, DescriptionTag, k) {
        NoMatchBeforeInsert(p, d, b, k);
      }
    }
  }

  /** The step of DescriptionFirstAfterInsert for one position k: a match there would
      end at the inserted meta's marker but run over its first quote. */
  lemma NoMatchBeforeInsert(p: string, d: string, b: string, k: nat)
    requires '"' !in d && !Contains(p + b, DescriptionMarker)
    requires k < |p|
    ensures !HitsAt(p + DescriptionMeta(d) + b, DescriptionTag, k)
  {
    var dm := DescriptionMeta(d);
    var s := p + dm + b;
    if HitsAt(s, DescriptionTag, k) {
      QuoteInsideInsert(p, d, b);
      var n := TagAtShape(s, k);
      MarkerAtInsert(p, d, b, k + n - 20);
      assert false;
    }
  }

  /** The quote that opens the inserted meta's content. */
  lemma QuoteInsideInsert(p: string, d: string, b: string)
    ensures (p + DescriptionMeta(d) + b)[|p| + 14] == '"'
  {
    DescriptionChars(d);
    assert (p + DescriptionMeta(d) + b)[|p| + 14] == DescriptionMeta(d)[14];
  }

  /** Around a p and b without the description marker, the inserted meta holds the
      only one, at its own place. */
  lemma MarkerAtInsert(p: string, d: string, b: string, at: nat)
    requires '"' !in d && !Contains(p + b, DescriptionMarker)
    requires OccursAt(p + DescriptionMeta(d) + b, DescriptionMarker, at)
    ensures at == |p| + 17 + |d|
  {
    DescriptionChars(d);
    assert '<' !in DescriptionMarker && '>' !in DescriptionMarker;
    OccursAround(p, DescriptionMeta(d), b, DescriptionMarker, at);
    DescriptionMarkerAt(d, at - |p|);
  }

  /** A description-tag match at k of s, of length n, in terms of s. */
  lemma TagAtShape(s: string, k: nat) returns (n: nat)
    requires HitsAt(s, DescriptionTag, k)
    ensures n == DescriptionTag(s[k..]).value && k + n <= |s|
    ensures |MetaOpen| + |DescriptionClose| <= n
    ensures OccursAt(s, DescriptionMarker, k + n - 20)
    ensures forall v :: k + |MetaOpen| <= v < k + n - 22 ==> s[v] != '"'
  {
    var x := s[k..];
    DescriptionTagShape(x);
    n := DescriptionTag(x).value;
    assert x[n - 20..n - 2] == s[k + n - 20..k + n - 2];
    forall v | k + |MetaOpen| <= v < k + n - 22 ensures s[v] != '"' {
      assert s[v] == x[v - k];
    }
  }

  /** Nor does one start in b. */
  lemma NoMatchAfterInsert(p: string, b: string)
    requires !Contains(p + b, DescriptionMarker)
    ensures NoHit(b, DescriptionTag)
  {
    forall k | 0 <= k < |b| ensures !Hits(DescriptionTag, b[k..]) {
      if Hits(DescriptionTag, b[k..]) {
        var x := b[k..];
        DescriptionTagShape(x);
        var n := DescriptionTag(x).value;
        var at := |p| + k + n - 20;
        assert x[n - 20..n - 2] == (p + b)[at..at + 18];
        OccursAtContains(p + b, DescriptionMarker, at);
        assert false;
      }
    }
  }

  /** Inserting a description meta brings in no og:title marker. */
  lemma NoOgTitleAfterInsert(p: string, d: string, b: string)
    requires '"' !in d && !Contains(p + b, OgTitleMarker)
    ensures !Contains(p + DescriptionMeta(d) + b, OgTitleMarker)
  {
    var dm := DescriptionMeta(d);
    DescriptionChars(d);
    NoOgTitleInDescription(d);
    assert '<' !in OgTitleMarker && '>' !in OgTitleMarker;
    forall m | 0 <= m <= |p + dm + b| - |OgTitleMarker| ensures !OccursAt(p + dm + b, OgTitleMarker, m) {
      if OccursAt(p + dm + b, OgTitleMarker, m) {
        OccursAround(p, dm, b, OgTitleMarker, m);
        assert false;
      }
    }
  }

  /** Steps 6 and 7 on a page with one title element and neither meta: the
      description and then the og:title follow the title, both carrying its text. */
  lemma MetasAdded(a: string, t: string, b: string)
    requires t != [] && '<' !in t && '"' !in t
    requires !Contains(a, TitleOpen) && !Contains(b, TitleOpen)
    requires !Contains(a + TitleElementOf(t) + b, DescriptionMarker)
    requires !Contains(a + TitleElementOf(t) + b, OgTitleMarker)
    ensures AddOgTitle(AddDescription(a + TitleElementOf(t) + b))
         == a + TitleElementOf(t) + DescriptionMeta(t) + OgTitleMeta(t) + b
  {
    var el := TitleElementOf(t);
    var dm := DescriptionMeta(t);
    DescriptionAdded(a, t, b);
    var p := a + el;
    DescriptionFirstAfterInsert(p, t, b);
    NoMatchAfterInsert(p, b);
    NoOgTitleAfterInsert(p, t, b);
    FirstTitleIs(a, t, dm + b);
    ConcatAssoc(p, dm, b);
    OgTitleAdded(p, t, b, t);
  }

  // ---------------------------------------------------------------------------
  // Step 8 and the whole repair
  // ---------------------------------------------------------------------------

  const WwwHref := "href=\"https://www.avir.com/"
  const ApexHref := "href=\"https://avir.com/"

  /** Step 8: links to the www host point at the apex host. */
  function ApexLinks(html: string): string {
    ReplaceAll(html, WwwHref, ApexHref)
  }

  /** One www link becomes the apex link and the rest of the page is kept. */
  lemma ApexLinkOnce(html: string, i: nat)
    requires OccursAt(html, WwwHref, i)
    requires forall k: nat :: k != i ==> !OccursAt(html, WwwHref, k)
    ensures ApexLinks(html) == html[..i] + ApexHref + html[i + |WwwHref|..]
  {
    ReplaceAllOnce(html, WwwHref, ApexHref, i);
  }

  /** `repair_html`: the eight steps in order. */
  function Repaired(html: string): string {
    ApexLinks(AddOgTitle(AddDescription(Retitle(DropIntegrity(LocaliseCdn(html))))))
  }

  /** A page that, after the first five steps, has one title element and neither a
      description nor an og:title comes out with both metas right after the title,
      each carrying the title's text; step 8 then moves its www links. */
  lemma RepairedAddsMetas(page: string, a: string, t: string, b: string)
    requires Retitle(DropIntegrity(LocaliseCdn(page))) == a + TitleElementOf(t) + b
    requires t != [] && '<' !in t && '"' !in t
    requires !Contains(a, TitleOpen) && !Contains(b, TitleOpen)
    requires !Contains(a + TitleElementOf(t) + b, DescriptionMarker)
    requires !Contains(a + TitleElementOf(t) + b, OgTitleMarker)
    ensures Repaired(page)
         == ApexLinks(a + TitleElementOf(t) + DescriptionMeta(t) + OgTitleMeta(t) + b)
  {
    MetasAdded(a, t, b);
  }

  /** The script's function, which rebinds its local through the steps. */
  method RepairHtml(content: string) returns (html: string)
    ensures html == Repaired(content)
  {
    html := ReplaceAll(content, CssCdn, CssLocal);
    html := ReplaceAll(html, SiteRoot, ImagesPrefix(SiteId));
    html := ReplaceAll(html, BlogRoot, ImagesPrefix(BlogId));
    html := Sub(html, CdnDirectory, DirectoryToImages);
    html := Sub(html, IntegrityAttribute, Const(""));
    html := Sub(html, CrossoriginAttribute, Const(""));
    html := Sub(html, BareCrossorigin, Const(""));
    var slug := Search(html, SlugAttribute);
    if slug.Some? {
      var title := SlugTitle(SlugValue(MatchAt(html, SlugAttribute, slug.value)));
      html := ReplaceAll(html, GenericTitle, TitleElementOf(title));
    }
    if !Contains(html, DescriptionMarker) {
      var title := FirstTitle(html);
      if title.Some? {
        html := Sub(html, TitleElement, Append(DescriptionMeta(title.value)));
      }
    }
    if !Contains(html, OgTitleMarker) {
      var title := FirstTitle(html);
      if title.Some? {
        html := Sub(html, DescriptionTag, Append(OgTitleMeta(title.value)));
      }
    }
    html := ReplaceAll(html, WwwHref, ApexHref);
  }
}

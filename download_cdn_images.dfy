/** scripts/download-cdn-images.py: collect the CDN asset URLs of the site's HTML and
    CSS files, fetch each into the site tree, and rewrite every page to refer to the
    local copies. The network and the disk are inputs: which URLs a fetch succeeds
    for, and which local files exist when the run starts. */
module DownloadCdnImages {
  import opened Text
  import opened Rewrite

  // ---------------------------------------------------------------------------
  // get_cdn_urls
  // ---------------------------------------------------------------------------

  const CdnRoot := "https://cdn.prod.website-files.com/"

  /** The class `[^"'<>\s)]`. */
  predicate UrlChar(c: char) {
    c != '"' && c != '\'' && c != '<' && c != '>' && c != ')' && !PySpace(c)
  }

  /** The greedy run `[^"'<>\s)]*` at the start of t. */
  function UrlRun(t: string): (r: nat)
    ensures r <= |t|
    ensures forall v :: 0 <= v < r ==> UrlChar(t[v])
    ensures r < |t| ==> !UrlChar(t[r])
  {
    if t == [] || !UrlChar(t[0]) then 0 else 1 + UrlRun(t[1..])
  }

  /** `https://cdn\.prod\.website-files\.com/[^"'<>\s)]+` at the start of t. */
  function CdnUrl(t: string): Option<nat> {
    if !StartsWith(t, CdnRoot) then None
    else
      var q := UrlRun(t[|CdnRoot|..]);
      if q == 0 then None else Some(|CdnRoot| + q)
  }

  /** The texts the pattern matches: the root and at least one URL character. */
  predicate IsCdnUrl(u: string) {
    |CdnRoot| < |u| && StartsWith(u, CdnRoot)
    && forall k :: |CdnRoot| <= k < |u| ==> UrlChar(u[k])
  }

  const Extensions: seq<string> := [".jpg", ".jpeg", ".png", ".gif", ".svg", ".webp", ".ico",
                                     ".js", ".css", ".woff", ".woff2", ".ttf", ".otf"]

  /** The part before `?` ends, ignoring ASCII case, with one of the extensions. */
  predicate HasAssetExtension(url: string) {
    exists i :: 0 <= i < |Extensions| && EndsWith(LowerStr(Before(url, '?')), Extensions[i])
  }

  /** What get_cdn_urls returns: the matched URLs, query included, whose part before
      the query names an asset. */
  function CdnAssetUrls(content: string): set<string> {
    set u | u in FindAll(content, CdnUrl) && HasAssetExtension(u)
  }

  /** get_cdn_urls, which adds the kept URLs to a set one by one. */
  method GetCdnUrls(content: string) returns (unique: set<string>)
    ensures unique == CdnAssetUrls(content)
  {
    var urls := FindAll(content, CdnUrl);
    unique := {};
    for i := 0 to |urls|
      invariant unique == set u | u in urls[..i] && HasAssetExtension(u)
    {
      assert urls[..i + 1] == urls[..i] + [urls[i]];
      if HasAssetExtension(urls[i]) {
        unique := unique + {urls[i]};
      }
    }
    assert urls[..|urls|] == urls;
  }

  /** Each match of the pattern is a CDN URL. */
  lemma CdnUrlMatch(t: string)
    requires Hits(CdnUrl, t)
    ensures IsCdnUrl(t[..CdnUrl(t).value])
  {
    var n := CdnUrl(t).value;
    var run := t[|CdnRoot|..];
    forall k | |CdnRoot| <= k < n ensures UrlChar(t[..n][k]) {
      assert t[..n][k] == run[k - |CdnRoot|];
    }
    assert t[..n][..|CdnRoot|] == t[..|CdnRoot|];
  }

  lemma {:induction false} FindAllCdnUrls(s: string)
    ensures forall x :: x in FindAll(s, CdnUrl) ==> IsCdnUrl(x)
    decreases |s|
  {
    if s != [] {
      if Hits(CdnUrl, s) {
        CdnUrlMatch(s);
        FindAllCdnUrls(s[CdnUrl(s).value..]);
      } else {
        FindAllCdnUrls(s[1..]);
      }
    }
  }

  /** Every URL get_cdn_urls keeps is a CDN URL found in the text, and it names an
      asset before its query. */
  lemma CdnAssetUrlsSound(content: string)
    ensures forall u :: u in CdnAssetUrls(content) ==>
      IsCdnUrl(u) && Contains(content, u) && HasAssetExtension(u)
  {
    FindAllCdnUrls(content);
    FindAllOccur(content, CdnUrl);
  }

  /** The query does not decide whether a URL is kept. */
  lemma QueryIgnored(base: string, query: string)
    requires '?' !in base
    ensures HasAssetExtension(base + "?" + query) <==> HasAssetExtension(base)
  {
    assert Before(base + "?" + query, '?') == base by {
      assert StartsWith(base + "?" + query, Before(base + "?" + query, '?'));
      BeforeOfConcat(base, query);
    }
    assert Before(base, '?') == base by {
      BeforeWithout(base);
    }
  }

  lemma {:induction false} BeforeOfConcat(base: string, query: string)
    requires '?' !in base
    ensures Before(base + "?" + query, '?') == base
  {
    if base != [] {
      assert (base + "?" + query)[1..] == base[1..] + "?" + query;
      BeforeOfConcat(base[1..], query);
    }
  }

  lemma {:induction false} BeforeWithout(base: string)
    requires '?' !in base
    ensures Before(base, '?') == base
  {
    if base != [] {
      BeforeWithout(base[1..]);
    }
  }

  /** Extensions are compared without regard to case: `.PNG` names an image. */
  lemma UpperCaseExtension(stem: string)
    requires '?' !in stem
    ensures HasAssetExtension(stem + ".PNG")
  {
    BeforeWithout(stem + ".PNG");
    var l := LowerStr(stem + ".PNG");
    assert l[|l| - 4..] == ".png";
    assert EndsWith(l, Extensions[2]);
  }

  // ---------------------------------------------------------------------------
  // url_to_local_info
  // ---------------------------------------------------------------------------

  /** Where the path of t stops: at the first `?` or `#`. */
  function PathEnd(t: string): (r: nat)
    ensures r <= |t|
    ensures forall v :: 0 <= v < r ==> t[v] != '?' && t[v] != '#'
  {
    if t == [] || t[0] == '?' || t[0] == '#' then 0 else 1 + PathEnd(t[1..])
  }

  /** Where the host of t stops: at the first `/`, `?` or `#`. */
  function HostEnd(t: string): (r: nat)
    ensures r <= |t|
    ensures forall v :: 0 <= v < r ==> t[v] != '/' && t[v] != '?' && t[v] != '#'
    ensures r < |t| ==> t[r] == '/' || t[r] == '?' || t[r] == '#'
  {
    if t == [] || t[0] == '/' || t[0] == '?' || t[0] == '#' then 0 else 1 + HostEnd(t[1..])
  }

  /** The position of the last `/` of p, or 0 when p has none. */
  function LastSlash(p: string): (r: nat)
    ensures r == 0 || (r < |p| && p[r] == '/')
    ensures forall k :: r < k < |p| ==> p[k] != '/'
  {
    if p == [] then 0
    else if p[|p| - 1] == '/' then |p| - 1
    else LastSlash(p[..|p| - 1])
  }

  const Https := "https://"

  /** What follows the host of an absolute URL `https://<host>...`. */
  function AfterHost(url: string): string {
    var rest := url[if |url| < |Https| then |url| else |Https|..];
    rest[HostEnd(rest)..]
  }

  /** The text up to the query or the fragment. */
  function BeforeQuery(t: string): string {
    t[..PathEnd(t)]
  }

  /** The path without the `;` parameters of its last segment (the first `;` when
      the path has no `/`). */
  function WithoutParams(p: string): (r: string)
    ensures StartsWith(p, r)
  {
    var k := LastSlash(p);
    p[..k + RunWithout(p[k..], ';')]
  }

  /** `urlparse(url).path`: after the host, up to the query or the fragment, and
      without the parameters. */
  function UrlPath(url: string): (r: string) {
    WithoutParams(BeforeQuery(AfterHost(url)))
  }

  lemma {:induction false} HostEndBeforeQuery(t: string, x: string)
    requires x != [] && x[0] == '?'
    ensures HostEnd(t + x) == HostEnd(t)
  {
    if t != [] && t[0] != '/' && t[0] != '?' && t[0] != '#' {
      assert (t + x)[1..] == t[1..] + x;
      HostEndBeforeQuery(t[1..], x);
    }
  }

  lemma {:induction false} PathEndAtQuery(t: string, x: string)
    requires '?' !in t && '#' !in t && x != [] && x[0] == '?'
    ensures PathEnd(t + x) == PathEnd(t) == |t|
  {
    if t != [] {
      assert (t + x)[1..] == t[1..] + x;
      PathEndAtQuery(t[1..], x);
    }
  }

  /** The query does not take part in the path, so URLs that differ only in their
      query name the same local file. */
  lemma QueryNotInPath(base: string, query: string)
    requires |Https| <= |base| && '?' !in base && '#' !in base
    ensures UrlPath(base + "?" + query) == UrlPath(base)
    ensures UrlToLocalInfo(base + "?" + query) == UrlToLocalInfo(base)
  {
    var x := "?" + query;
    assert base + "?" + query == base + x;
    var rest := base[|Https|..];
    assert (base + x)[|Https|..] == rest + x;
    HostEndBeforeQuery(rest, x);
    var h := HostEnd(rest);
    assert (rest + x)[h..] == rest[h..] + x;
    assert AfterHost(base + x) == AfterHost(base) + x;
    var tail := AfterHost(base);
    PathEndAtQuery(tail, x);
    assert (tail + x)[..|tail|] == tail;
    assert BeforeQuery(AfterHost(base + x)) == BeforeQuery(tail);
  }

  /** `replace('/', '_')`. */
  function Flatten(p: string): (r: string)
    ensures |r| == |p| && '/' !in r
    ensures forall k :: 0 <= k < |p| ==> r[k] == (if p[k] == '/' then '_' else p[k])
  {
    if p == [] then [] else [if p[0] == '/' then '_' else p[0]] + Flatten(p[1..])
  }

  /** The path without its leading slashes, each further `/` made `_`. */
  function LocalFilename(url: string): (r: string)
    ensures '/' !in r
  {
    Flatten(DropLeading(UrlPath(url), '/'))
  }

  datatype Category = Scripts | Styles | Fonts | Images

  /** The category, tested by substring in the script's order. */
  function CategoryOf(filename: string): Category {
    if Contains(filename, ".js") then Scripts
    else if Contains(filename, ".css") then Styles
    else if Contains(filename, ".woff") || Contains(filename, ".woff2")
         || Contains(filename, ".ttf") || Contains(filename, ".otf") then Fonts
    else Images
  }

  function Directory(c: Category): (r: string)
    ensures r != [] && '/' !in r
  {
    match c
    case Scripts => "js"
    case Styles => "css"
    case Fonts => "fonts"
    case Images => "images"
  }

  const SiteDir := "/home/agent/avir/site"

  datatype LocalInfo = LocalInfo(url: string, path: string)

  /** The root-relative URL and the file under the site tree of a local file name. */
  function LocalInfoOf(f: string): LocalInfo {
    var dir := Directory(CategoryOf(f));
    LocalInfo("/" + dir + "/" + f, SiteDir + "/" + dir + "/" + f)
  }

  /** url_to_local_info. */
  function UrlToLocalInfo(url: string): LocalInfo {
    LocalInfoOf(LocalFilename(url))
  }

  /** The local URL of a file name f without `/` is `/<dir>/<f>`, and the disk path
      is the same two names under the site directory. */
  lemma LocalInfoShape(f: string)
    requires '/' !in f
    ensures var info := LocalInfoOf(f);
      Split(info.url, '/') == ["", Directory(CategoryOf(f)), f]
      && info.path == SiteDir + info.url
  {
    TwoSegments(Directory(CategoryOf(f)), f);
  }

  lemma TwoSegments(dir: string, f: string)
    requires '/' !in dir && '/' !in f
    ensures Split("/" + dir + "/" + f, '/') == ["", dir, f]
  {
    assert "/" + dir + "/" + f == [] + ['/'] + (dir + ['/'] + f);
    SplitPrefix([], dir + ['/'] + f, '/');
    SplitPrefix(dir, f, '/');
    SplitNoSeparator(f, '/');
  }

  /** The category test is by substring with scripts first: a name holding `.js`
      anywhere, an image `a.jsx.png` say, is filed with the scripts. */
  lemma ScriptsFirst(a: string, b: string)
    ensures CategoryOf(a + ".js" + b) == Scripts
  {
    ContainsSpliced(a + ".js" + b, a, [], ".js", [], b);
  }

  /** A local URL holds no `//`. */
  lemma LocalUrlSingleSlashes(f: string)
    requires '/' !in f
    ensures !Contains(LocalInfoOf(f).url, "//")
  {
    var dir := Directory(CategoryOf(f));
    var l := "/" + dir + "/" + f;
    forall k | 0 <= k <= |l| - 2 ensures !OccursAt(l, "//", k) {
      assert l[k..k + 2][0] == l[k] && l[k..k + 2][1] == l[k + 1];
      if k == 0 {
        assert l[1] == dir[0];
      } else if k <= |dir| {
        assert l[k] == dir[k - 1];
      } else if k == |dir| + 1 {
        assert l[k + 1] == f[0];
      } else {
        assert l[k] == f[k - |dir| - 2];
      }
    }
  }

  /** No CDN URL occurs in a local URL, so a later replacement cannot touch what an
      earlier one produced. */
  lemma LocalUrlInert(f: string, u: string)
    requires '/' !in f && IsCdnUrl(u)
    ensures !Contains(LocalInfoOf(f).url, u)
  {
    LocalUrlSingleSlashes(f);
    assert u[..|CdnRoot|] == CdnRoot;
    assert u[6] == u[..|CdnRoot|][6] == '/';
    assert u[7] == u[..|CdnRoot|][7] == '/';
    AbsentInner(LocalInfoOf(f).url, u, "//", 6);
  }

  // ---------------------------------------------------------------------------
  // update_files: relative image paths, then the CDN URLs longest first
  // ---------------------------------------------------------------------------

  const ImagesRel := "images/"
  const ImagesAbs := "/images/"

  predicate Quote(c: char) {
    c == '"' || c == '\''
  }

  /** The length of `src`, `href` or `content` at the start of t, else 0. */
  function AttributeName(t: string): (n: nat)
    ensures n <= |t|
  {
    if StartsWith(t, "src") then 3
    else if StartsWith(t, "href") then 4
    else if StartsWith(t, "content") then 7
    else 0
  }

  /** `(src|href|content)=["']images/` at the start of t. */
  function RelativeAttribute(t: string): (r: Option<nat>)
    ensures r.Some? ==> AttributeName(t) + 2 + |ImagesRel| == r.value <= |t|
  {
    var n := AttributeName(t);
    if 0 < n && n + 1 < |t| && t[n] == '=' && Quote(t[n + 1]) && StartsWith(t[n + 2..], ImagesRel)
    then Some(n + 2 + |ImagesRel|) else None
  }

  /** The template `\1="/images/`: the name, then always a double quote. */
  function AttributeAsWritten(hit: string): string {
    if |hit| < 2 + |ImagesRel| then hit else hit[..|hit| - 2 - |ImagesRel|] + "=\"" + ImagesAbs
  }

  /** The intended template `\1=\2/images/`: the quote the attribute opened with. */
  function AttributeKeepingQuote(hit: string): string {
    if |hit| < 1 + |ImagesRel| then hit else hit[..|hit| - |ImagesRel|] + ImagesAbs
  }

  /** `url\(["']?images/` at the start of t. */
  function RelativeUrl(t: string): Option<nat> {
    if !StartsWith(t, "url(") then None
    else if 4 < |t| && Quote(t[4]) && StartsWith(t[5..], ImagesRel) then Some(5 + |ImagesRel|)
    else if StartsWith(t[4..], ImagesRel) then Some(4 + |ImagesRel|)
    else None
  }

  const AvirHost := "https://www.avir.com/"

  /** The lazy `.*?` followed by p: the shortest run free of newlines that p follows. */
  function LazyUntil(t: string, p: string): (r: Option<nat>)
    ensures r.Some? ==> r.value + |p| <= |t|
    decreases |t|
  {
    if p != [] && StartsWith(t, p) then Some(0)
    else if t == [] || t[0] == '\n' then None
    else match LazyUntil(t[1..], p)
      case None => None
      case Some(k) => Some(k + 1)
  }

  /** `url\(["']?https://www\.avir\.com/.*?images/` at the start of t. */
  function AvirUrl(t: string): Option<nat> {
    if !StartsWith(t, "url(") then None
    else
      var q := if 4 < |t| && Quote(t[4]) then 1 else 0;
      if !StartsWith(t[4 + q..], AvirHost) then None
      else match LazyUntil(t[4 + q + |AvirHost|..], ImagesRel)
        case None => None
        case Some(k) => Some(4 + q + |AvirHost| + k + |ImagesRel|)
  }

  /** The script's replacement `url("/images/` for both url() patterns. */
  const UrlAsWritten := "url(\"" + ImagesAbs

  /** The intended replacement: `url(`, the quote the reference had if any, `/images/`. */
  function UrlKeepingQuote(hit: string): string {
    if 4 < |hit| && Quote(hit[4]) then "url(" + [hit[4]] + ImagesAbs else "url(" + ImagesAbs
  }

  /** `/images/(.*?)&quot;` at the start of t. */
  function QuotedEntity(t: string): Option<nat> {
    if !StartsWith(t, ImagesAbs) then None
    else match LazyUntil(t[|ImagesAbs|..], "&quot;")
      case None => None
      case Some(k) => Some(|ImagesAbs| + k + 6)
  }

  /** The template `/images/\1"`: the entity at the end becomes a quote. */
  function EntityToQuote(hit: string): string {
    if |hit| < 6 then hit else hit[..|hit| - 6] + "\""
  }

  /** Lines 61-64 as written. */
  function FixRelativeAsWritten(content: string): string {
    var c := Sub(content, RelativeAttribute, AttributeAsWritten);
    var c := Sub(c, RelativeUrl, Const(UrlAsWritten));
    var c := Sub(c, AvirUrl, Const(UrlAsWritten));
    Sub(c, QuotedEntity, EntityToQuote)
  }

  /** Lines 61-64 with the quote of each reference kept. */
  function FixRelative(content: string): string {
    var c := Sub(content, RelativeAttribute, AttributeKeepingQuote);
    var c := Sub(c, RelativeUrl, UrlKeepingQuote);
    var c := Sub(c, AvirUrl, UrlKeepingQuote);
    Sub(c, QuotedEntity, EntityToQuote)
  }

  lemma NoEqualsNoAttribute(s: string)
    requires '=' !in s
    ensures NoHit(s, RelativeAttribute)
  {
    forall k | 0 <= k < |s| ensures !Hits(RelativeAttribute, s[k..]) {
      var t := s[k..];
      var n := AttributeName(t);
      if n < |t| {
        assert t[n] == s[k + n];
      }
    }
  }

  const AttributeNames := ["src", "href", "content"]

  /** Each of the three names is recognised whatever follows it. */
  lemma NameRecognised(name: string, tail: string)
    requires name in AttributeNames
    ensures AttributeName(name + tail) == |name|
  {
    var t := name + tail;
    StartsWithConcat(name, tail);
    if name == "src" {
      assert StartsWith(t, "src");
    } else if name == "href" {
      assert t[0] == 'h' && StartsWith(t, "href");
    } else {
      assert t[0] == 'c' && StartsWith(t, "content");
    }
  }

  /** The name, `=`, the quote and `images/` are one match. */
  lemma AttributeMatch(name: string, q: char, rest: string)
    requires name in AttributeNames && Quote(q)
    ensures var hit := name + "=" + [q] + ImagesRel;
      RelativeAttribute(hit + rest) == Some(|hit|)
  {
    var tail := "=" + [q] + ImagesRel + rest;
    var t := name + tail;
    assert name + "=" + [q] + ImagesRel + rest == t;
    NameRecognised(name, tail);
    assert t[|name|] == '=' && t[|name| + 1] == q;
    assert t[|name| + 2..] == ImagesRel + rest;
    StartsWithConcat(ImagesRel, rest);
  }

  /** As written, a single-quoted reference `src='images/a.png'` comes out as
      `src="/images/a.png'`: opened with a double quote, closed with a single one. */
  lemma AttributeQuoteMismatch(name: string, v: string)
    requires name in AttributeNames && '=' !in v
    ensures Sub(name + "='" + ImagesRel + v + "'", RelativeAttribute, AttributeAsWritten)
         == name + "=\"" + ImagesAbs + v + "'"
  {
    var hit := name + "=" + ['\''] + ImagesRel;
    AttributeMatch(name, '\'', v + "'");
    assert name + "='" + ImagesRel + v + "'" == hit + (v + "'");
    SubHitFirst(hit, v + "'", RelativeAttribute, AttributeAsWritten);
    NoEqualsNoAttribute(v + "'");
    SubNoHit(v + "'", RelativeAttribute, AttributeAsWritten);
    assert hit[..|hit| - 2 - |ImagesRel|] == name;
  }

  /** Kept quotes: a reference quoted either way stays quoted the same way. */
  lemma AttributeQuoteKept(name: string, q: char, v: string)
    requires name in AttributeNames && Quote(q) && '=' !in v && q !in v
    ensures Sub(name + "=" + [q] + ImagesRel + v + [q], RelativeAttribute, AttributeKeepingQuote)
         == name + "=" + [q] + ImagesAbs + v + [q]
  {
    var hit := name + "=" + [q] + ImagesRel;
    AttributeMatch(name, q, v + [q]);
    assert name + "=" + [q] + ImagesRel + v + [q] == hit + (v + [q]);
    SubHitFirst(hit, v + [q], RelativeAttribute, AttributeKeepingQuote);
    NoEqualsNoAttribute(v + [q]);
    SubNoHit(v + [q], RelativeAttribute, AttributeKeepingQuote);
    assert hit[..|hit| - |ImagesRel|] == name + "=" + [q];
  }

  lemma RelativeUrlLeads()
    ensures LeadsWith(RelativeUrl, "url(")
  {
  }

  /** `url(` and `images/` are one match. */
  lemma BareUrlMatch(rest: string)
    ensures RelativeUrl("url(" + ImagesRel + rest) == Some(4 + |ImagesRel|)
  {
    var t := "url(" + ImagesRel + rest;
    assert t == "url(" + (ImagesRel + rest);
    StartsWithConcat("url(", ImagesRel + rest);
    assert t[4..] == ImagesRel + rest;
    StartsWithConcat(ImagesRel, rest);
  }

  /** As written, an unquoted `url(images/a.png)` comes out as `url("/images/a.png)`,
      a quote that is never closed. */
  lemma UrlQuoteUnclosed(v: string)
    requires '(' !in v
    ensures Sub("url(" + ImagesRel + v + ")", RelativeUrl, Const(UrlAsWritten))
         == "url(\"" + ImagesAbs + v + ")"
  {
    BareUrlMatch(v + ")");
    assert "url(" + ImagesRel + v + ")" == ("url(" + ImagesRel) + (v + ")");
    SubHitFirst("url(" + ImagesRel, v + ")", RelativeUrl, Const(UrlAsWritten));
    CharAbsent(v + ")", "url(", 3);
    RelativeUrlLeads();
    NoHitWithout(v + ")", RelativeUrl, "url(");
    SubNoHit(v + ")", RelativeUrl, Const(UrlAsWritten));
  }

  /** Kept quotes: an unquoted reference stays unquoted. */
  lemma UrlQuoteKept(v: string)
    requires '(' !in v
    ensures Sub("url(" + ImagesRel + v + ")", RelativeUrl, UrlKeepingQuote)
         == "url(" + ImagesAbs + v + ")"
  {
    BareUrlMatch(v + ")");
    assert "url(" + ImagesRel + v + ")" == ("url(" + ImagesRel) + (v + ")");
    SubHitFirst("url(" + ImagesRel, v + ")", RelativeUrl, UrlKeepingQuote);
    CharAbsent(v + ")", "url(", 3);
    RelativeUrlLeads();
    NoHitWithout(v + ")", RelativeUrl, "url(");
    SubNoHit(v + ")", RelativeUrl, UrlKeepingQuote);
    assert ("url(" + ImagesRel)[4] == 'i';
  }

  /** The order sorted(key=len, reverse=True) gives the kept URLs: each once, none
      shorter before a longer one. Python's order among equal lengths follows the
      set's iteration order, so it is left open. */
  predicate LongestFirst(order: seq<string>, urls: set<string>) {
    (forall i, j :: 0 <= i < j < |order| ==> |order[i]| >= |order[j]| && order[i] != order[j])
    && (forall i :: 0 <= i < |order| ==> order[i] in urls)
    && (forall u :: u in urls ==> u in order)
  }

  /** The content after replacing each URL of order with its local URL, in order. */
  function Localised(content: string, order: seq<string>): string
  {
    if order == [] then content
    else
      var last := order[|order| - 1];
      ReplaceAll(Localised(content, order[..|order| - 1]), last, UrlToLocalInfo(last).url)
  }

  lemma LocalisedPair(content: string, v: string, u: string)
    ensures Localised(content, [v, u])
         == ReplaceAll(ReplaceAll(content, v, UrlToLocalInfo(v).url), u, UrlToLocalInfo(u).url)
  {
    assert Localised(content, [v]) == ReplaceAll(content, v, UrlToLocalInfo(v).url) by {
      assert [v][..0] == [];
    }
    assert [v, u][..1] == [v];
  }

  /** Replacing URLs longest first: once the longer URL is replaced, the shorter
      one no longer finds anything of it to replace. */
  lemma LongerUrlKept(v: string, u: string)
    requires IsCdnUrl(v) && IsCdnUrl(u)
    ensures Localised(v, [v, u]) == UrlToLocalInfo(v).url
  {
    LocalisedPair(v, v, u);
    var info := UrlToLocalInfo(v);
    assert info == LocalInfoOf(LocalFilename(v));
    LocalUrlInert(LocalFilename(v), u);
    assert !Contains(info.url, u);
    ReplaceThenAbsent(v, info.url, u, UrlToLocalInfo(u).url);
  }

  /** The other order would clobber: a shorter URL that starts the longer one takes
      its place, leaving the rest of the longer URL behind. */
  lemma ShorterFirstClobbers(u: string, v: string)
    requires IsCdnUrl(u) && IsCdnUrl(v) && StartsWith(v, u) && |u| < |v|
    ensures StartsWith(ReplaceAll(v, u, UrlToLocalInfo(u).url), UrlToLocalInfo(u).url)
  {
    assert v == u + v[|u|..];
    SubHitFirst(u, v[|u|..], Lit(u), Const(UrlToLocalInfo(u).url));
    StartsWithConcat(UrlToLocalInfo(u).url, ReplaceAll(v[|u|..], u, UrlToLocalInfo(u).url));
  }

  /** The new content of one file as the script computes it: lines 61-64 as written,
      then the kept CDN URLs in the given longest-first order. */
  function Updated(content: string, order: seq<string>): string
    requires LongestFirst(order, CdnAssetUrls(FixRelativeAsWritten(content)))
  {
    Localised(FixRelativeAsWritten(content), order)
  }

  /** The same with the quote of each relative reference kept, as lines 61-62 intend. */
  function UpdatedIntended(content: string, order: seq<string>): string
    requires LongestFirst(order, CdnAssetUrls(FixRelative(content)))
  {
    Localised(FixRelative(content), order)
  }

  /** update_files for one file: the relative paths, then the CDN URLs in the given
      longest-first order; the file is written exactly when the content changed. */
  method UpdateFile(content: string, order: seq<string>) returns (updated: string, write: bool)
    requires LongestFirst(order, CdnAssetUrls(FixRelativeAsWritten(content)))
    ensures updated == Updated(content, order)
    ensures write <==> updated != content
  {
    updated := Sub(content, RelativeAttribute, AttributeAsWritten);
    updated := Sub(updated, RelativeUrl, Const(UrlAsWritten));
    updated := Sub(updated, AvirUrl, Const(UrlAsWritten));
    updated := Sub(updated, QuotedEntity, EntityToQuote);
    var urls := GetCdnUrls(updated);
    assert LongestFirst(order, urls);
    var fixed := updated;
    for i := 0 to |order|
      invariant updated == Localised(fixed, order[..i])
    {
      assert order[..i + 1][..i] == order[..i];
      updated := ReplaceAll(updated, order[i], UrlToLocalInfo(order[i]).url);
    }
    assert order[..|order|] == order;
    write := updated != content;
  }

  // ---------------------------------------------------------------------------
  // main: the URL set of all files, and the download counters
  // ---------------------------------------------------------------------------

  /** The union of get_cdn_urls over the files that could be read (None: not read). */
  function AllUrls(files: seq<Option<string>>): set<string> {
    if files == [] then {}
    else
      var last := files[|files| - 1];
      AllUrls(files[..|files| - 1]) + (if last.Some? then CdnAssetUrls(last.value) else {})
  }

  /** A URL is collected exactly when some readable file has it. */
  lemma {:induction false} AllUrlsIff(files: seq<Option<string>>, u: string)
    ensures u in AllUrls(files) <==>
      exists i :: 0 <= i < |files| && files[i].Some? && u in CdnAssetUrls(files[i].value)
  {
    if files != [] {
      var init := files[..|files| - 1];
      AllUrlsIff(init, u);
      if u in AllUrls(init) {
        var i :| 0 <= i < |init| && init[i].Some? && u in CdnAssetUrls(init[i].value);
        assert files[i] == init[i];
      }
      if exists i :: 0 <= i < |files| && files[i].Some? && u in CdnAssetUrls(files[i].value) {
        var i :| 0 <= i < |files| && files[i].Some? && u in CdnAssetUrls(files[i].value);
        if i < |init| {
          assert init[i] == files[i];
        }
      }
    }
  }

  /** main's first loop. */
  method CollectUrls(files: seq<Option<string>>) returns (all: set<string>)
    ensures all == AllUrls(files)
  {
    all := {};
    for i := 0 to |files|
      invariant all == AllUrls(files[..i])
    {
      assert files[..i + 1][..i] == files[..i];
      if files[i].Some? {
        var urls := GetCdnUrls(files[i].value);
        all := all + urls;
      }
    }
    assert files[..|files|] == files;
  }

  /** The counters and the files on disk. */
  datatype Progress = Progress(downloaded: nat, failed: nat, present: set<string>)

  /** The disk path url_to_local_info gives a URL. */
  function LocalPath(url: string): string
  {
    UrlToLocalInfo(url).path
  }

  /** One URL of the download loop, whose file is at path and whose fetch succeeds
      when ok: a file already there counts as downloaded, and a successful fetch
      counts and leaves the file behind. */
  function Attempt(s: Progress, path: string, ok: bool): (r: Progress)
    ensures s.present <= r.present && (ok ==> path in r.present)
    ensures r.downloaded + r.failed == s.downloaded + s.failed + 1
    ensures r.failed == s.failed + 1 <==> path !in s.present && !ok
    ensures path in s.present ==> r.present == s.present
  {
    if path in s.present then s.(downloaded := s.downloaded + 1)
    else if ok then Progress(s.downloaded + 1, s.failed, s.present + {path})
    else s.(failed := s.failed + 1)
  }

  /** The loop over urls, each URL's file at where(url). */
  function Downloads(urls: seq<string>, start: Progress, fetched: string -> bool, where: string -> string): Progress
  {
    if urls == [] then start
    else
      var last := urls[|urls| - 1];
      Attempt(Downloads(urls[..|urls| - 1], start, fetched, where), where(last), fetched(last))
  }

  lemma DownloadsStep(urls: seq<string>, i: nat, start: Progress, fetched: string -> bool, where: string -> string)
    requires i < |urls|
    ensures Downloads(urls[..i + 1], start, fetched, where)
         == Attempt(Downloads(urls[..i], start, fetched, where), where(urls[i]), fetched(urls[i]))
  {
    assert urls[..i + 1][..i] == urls[..i];
  }

  /** main's download loop over the collected URLs, in the given order. */
  method DownloadAssets(urls: seq<string>, present: set<string>, fetched: string -> bool)
    returns (downloaded: nat, failed: nat)
    ensures var r := Downloads(urls, Progress(0, 0, present), fetched, LocalPath);
      downloaded == r.downloaded && failed == r.failed
  {
    downloaded, failed := 0, 0;
    var disk := present;
    for i := 0 to |urls|
      invariant Progress(downloaded, failed, disk) == Downloads(urls[..i], Progress(0, 0, present), fetched, LocalPath)
    {
      DownloadsStep(urls, i, Progress(0, 0, present), fetched, LocalPath);
      var path := LocalPath(urls[i]);
      if path in disk {
        downloaded := downloaded + 1;
      } else if fetched(urls[i]) {
        downloaded := downloaded + 1;
        disk := disk + {path};
      } else {
        failed := failed + 1;
      }
    }
    assert urls[..|urls|] == urls;
  }

  /** Every URL is counted once, as downloaded or as failed, and no file goes away. */
  lemma {:induction false} DownloadsCount(urls: seq<string>, start: Progress, fetched: string -> bool, where: string -> string)
    ensures var r := Downloads(urls, start, fetched, where);
      r.downloaded + r.failed == start.downloaded + start.failed + |urls|
      && start.present <= r.present
  {
    if urls != [] {
      DownloadsCount(urls[..|urls| - 1], start, fetched, where);
    }
  }

  /** After the loop, the file of every URL whose fetch succeeds is on disk. */
  lemma {:induction false} DownloadsLeaveFiles(urls: seq<string>, start: Progress, fetched: string -> bool, where: string -> string)
    ensures forall i :: 0 <= i < |urls| && fetched(urls[i]) ==>
      where(urls[i]) in Downloads(urls, start, fetched, where).present
  {
    if urls != [] {
      var init := urls[..|urls| - 1];
      DownloadsLeaveFiles(init, start, fetched, where);
      forall i | 0 <= i < |init| && fetched(urls[i])
        ensures where(urls[i]) in Downloads(urls, start, fetched, where).present
      {
        assert init[i] == urls[i];
      }
    }
  }

  /** With every file already there, nothing is fetched and nothing fails. */
  lemma {:induction false} AllPresentNoFailures(urls: seq<string>, start: Progress, fetched: string -> bool, where: string -> string)
    requires forall i :: 0 <= i < |urls| ==> where(urls[i]) in start.present
    ensures Downloads(urls, start, fetched, where)
         == Progress(start.downloaded + |urls|, start.failed, start.present)
  {
    if urls != [] {
      AllPresentNoFailures(urls[..|urls| - 1], start, fetched, where);
    }
  }

  /** An enumeration of a set, each element once, is as long as the set is large. */
  lemma {:induction false} EnumerationSize(order: seq<string>, urls: set<string>)
    requires forall i, j :: 0 <= i < j < |order| ==> order[i] != order[j]
    requires (forall i :: 0 <= i < |order| ==> order[i] in urls) && (forall u :: u in urls ==> u in order)
    ensures |order| == |urls|
  {
    if order != [] {
      var last := order[|order| - 1];
      var init := order[..|order| - 1];
      forall u | u in urls - {last} ensures u in init {
        var i :| 0 <= i < |order| && order[i] == u;
        assert i < |init|;
      }
      forall i | 0 <= i < |init| ensures init[i] in urls - {last} {
        assert init[i] == order[i];
      }
      EnumerationSize(init, urls - {last});
    } else {
      assert urls == {};
    }
  }

  /** The run in main: processed and failed add up to the number of unique URLs. */
  lemma CountersCoverUrls(urls: seq<string>, all: set<string>, present: set<string>, fetched: string -> bool)
    requires forall i, j :: 0 <= i < j < |urls| ==> urls[i] != urls[j]
    requires (forall i :: 0 <= i < |urls| ==> urls[i] in all) && (forall u :: u in all ==> u in urls)
    ensures var r := Downloads(urls, Progress(0, 0, present), fetched, LocalPath);
      r.downloaded + r.failed == |all|
  {
    DownloadsCount(urls, Progress(0, 0, present), fetched, LocalPath);
    EnumerationSize(urls, all);
  }
}

/** scripts/add-canonical-tags.js: give every page of the site a canonical link. The
    page path is derived from the file's path relative to the site directory, pages
    that already have a canonical link are skipped, and the tag goes after the first
    charset meta tag or, failing that, after `<head>`. */
module AddCanonicalTags {
  import opened Text
  import opened Rewrite

  const BaseScheme := "https://"
  const BaseHost := "avirwebtest.pages.dev"
  const BaseUrl := BaseScheme + BaseHost

  const IndexPage := "/index.html"
  const HtmlExt := ".html"

  // ---------------------------------------------------------------------------
  // The page path and the tag
  // ---------------------------------------------------------------------------

  /** Backslashes become slashes, then the first `/index.html` and the first `.html`
      are removed, and a bare `index` becomes the empty path. */
  function PagePath(relativePath: string): (p: string)
    ensures '\\' !in p
  {
    var slashed := MapChar(relativePath, '\\', '/');
    var unindexed := ReplaceFirst(slashed, IndexPage, "");
    var path := ReplaceFirst(unindexed, HtmlExt, "");
    assert '\\' !in path by {
      MapCharRemoves(relativePath, '\\', '/');
      RemoveFirstKeepsOut(slashed, IndexPage, '\\');
      RemoveFirstKeepsOut(unindexed, HtmlExt, '\\');
    }
    if path == "index" then [] else path
  }

  function CanonicalUrl(pagePath: string): string {
    BaseUrl + "/" + pagePath
  }

  const LinkOpen := "<link "
  const CanonicalRel := "rel=\"canonical\""
  const HrefOpen := " href=\""
  const LinkClose := "\" />"

  function CanonicalTag(url: string): string {
    LinkOpen + CanonicalRel + HrefOpen + url + LinkClose
  }

  /** The tag for a page, from its path relative to the site directory. */
  function TagFor(relativePath: string): string {
    CanonicalTag(CanonicalUrl(PagePath(relativePath)))
  }

  // ---------------------------------------------------------------------------
  // The insertion
  // ---------------------------------------------------------------------------

  const MetaOpen := "<meta charset"
  const HeadOpen := "<head>"
  const Indent := "\n    "

  /** The first `>` at or after k. */
  function FirstGt(t: string, k: nat): (r: Option<nat>)
    ensures r.Some? ==> k <= r.value < |t| && t[r.value] == '>'
    ensures forall i :: k <= i < |t| && (r.None? || i < r.value) ==> t[i] != '>'
    decreases |t| - k
  {
    if k >= |t| then None else if t[k] == '>' then Some(k) else FirstGt(t, k + 1)
  }

  /** `/(<meta charset[^>]+>)/i` at the start of t: the opening in any letter case, at
      least one character other than `>`, and the first `>` after them. */
  function MetaCharset(t: string): (r: Option<nat>)
    ensures r.Some? ==> CiStartsWith(t, MetaOpen) && |MetaOpen| < r.value - 1 < |t|
    ensures r.Some? ==> t[r.value - 1] == '>' && forall i :: |MetaOpen| <= i < r.value - 1 ==> t[i] != '>'
    ensures r.None? ==> || !CiStartsWith(t, MetaOpen)
                        || (forall i :: |MetaOpen| < i < |t| ==> t[i] != '>')
                        || (|MetaOpen| < |t| && t[|MetaOpen|] == '>')
  {
    if !CiStartsWith(t, MetaOpen) then None
    else
      match FirstGt(t, |MetaOpen|)
      case Some(g) => if g > |MetaOpen| then Some(g + 1) else None
      case None => None
  }

  /** `$1\n    <tag>`: the matched meta tag followed by the canonical link. */
  function AfterMeta(tag: string): string -> string {
    m => m + Indent + tag
  }

  /** What the loop does with one file: the content it writes, or nothing. */
  datatype Outcome = Skipped | Written(content: string)

  /** The insertion of a tag: after the first charset meta tag when the text contains
      `<meta charset`, else after the first `<head>`, else nowhere. */
  function WithLink(content: string, tag: string): string {
    if Contains(content, MetaOpen) then SubFirst(content, MetaCharset, AfterMeta(tag))
    else if Contains(content, HeadOpen) then ReplaceFirst(content, HeadOpen, HeadOpen + Indent + tag)
    else content
  }

  /** The written content, as a function of the file. */
  function Canonicalised(relativePath: string, content: string): Outcome {
    if Contains(content, CanonicalRel) then Skipped
    else Written(WithLink(content, TagFor(relativePath)))
  }

  /** The body of the `forEach` callback for one file. */
  method CanonicaliseFile(relativePath: string, original: string) returns (outcome: Outcome)
    ensures outcome == Canonicalised(relativePath, original)
  {
    var canonicalTag := TagFor(relativePath);
    var content := original;
    if Contains(content, CanonicalRel) {
      return Skipped;
    }
    if Contains(content, MetaOpen) {
      content := SubFirst(content, MetaCharset, AfterMeta(canonicalTag));
    } else if Contains(content, HeadOpen) {
      content := ReplaceFirst(content, HeadOpen, HeadOpen + Indent + canonicalTag);
    }
    outcome := Written(content);
  }

  datatype SiteFile = SiteFile(relativePath: string, content: string)

  /** How many of the outcomes are writes. */
  function WrittenCount(outcomes: seq<Outcome>): (n: nat)
    ensures n <= |outcomes|
  {
    if outcomes == [] then 0
    else WrittenCount(outcomes[..|outcomes| - 1]) + (if outcomes[|outcomes| - 1].Written? then 1 else 0)
  }

  /** outcomes holds the outcome of each of the first |outcomes| files. */
  predicate Processed(files: seq<SiteFile>, outcomes: seq<Outcome>) {
    |outcomes| <= |files|
    && forall k :: 0 <= k < |outcomes| ==>
      outcomes[k] == Canonicalised(files[k].relativePath, files[k].content)
  }

  lemma ProcessedExtend(files: seq<SiteFile>, outcomes: seq<Outcome>, outcome: Outcome)
    requires Processed(files, outcomes) && |outcomes| < |files|
    requires outcome == Canonicalised(files[|outcomes|].relativePath, files[|outcomes|].content)
    ensures Processed(files, outcomes + [outcome])
  {
    var next := outcomes + [outcome];
    forall k | 0 <= k < |next|
      ensures next[k] == Canonicalised(files[k].relativePath, files[k].content)
    {
      if k < |outcomes| {
        assert next[k] == outcomes[k];
      }
    }
  }

  lemma WrittenCountExtend(outcomes: seq<Outcome>, outcome: Outcome)
    ensures WrittenCount(outcomes + [outcome]) == WrittenCount(outcomes) + (if outcome.Written? then 1 else 0)
  {
    assert (outcomes + [outcome])[..|outcomes|] == outcomes;
  }

  /** The whole script: every file in order, counting each one that is not skipped. */
  method AddCanonicalTags(files: seq<SiteFile>) returns (outcomes: seq<Outcome>, updated: nat)
    ensures |outcomes| == |files|
    ensures forall k :: 0 <= k < |files| ==>
      outcomes[k] == Canonicalised(files[k].relativePath, files[k].content)
    ensures updated == WrittenCount(outcomes)
  {
    outcomes := [];
    updated := 0;
    for i := 0 to |files|
      invariant |outcomes| == i
      invariant Processed(files, outcomes)
      invariant updated == WrittenCount(outcomes)
    {
      var outcome := CanonicaliseFile(files[i].relativePath, files[i].content);
      ProcessedExtend(files, outcomes, outcome);
      WrittenCountExtend(outcomes, outcome);
      outcomes := outcomes + [outcome];
      if outcome.Written? {
        updated := updated + 1;
      }
    }
  }

  // ---------------------------------------------------------------------------
  // Properties
  // ---------------------------------------------------------------------------

  lemma IndexPageFacts()
    ensures |IndexPage| == 11 && IndexPage[0] == '/' && IndexPage[6..] == HtmlExt
    ensures forall k :: 1 <= k < |IndexPage| ==> IndexPage[k] != '/'
  {
  }

  lemma HtmlExtFacts()
    ensures |HtmlExt| == 5 && HtmlExt[0] == '.'
    ensures forall k :: 1 <= k < |HtmlExt| ==> HtmlExt[k] != '.'
  {
  }

  /** When a appears nowhere in a, and the first character of p appears nowhere else
      in p, then the first occurrence of p in a + p is the appended one. */
  lemma FirstAtEnd(a: string, p: string)
    requires |p| > 0 && !Contains(a, p)
    requires forall k :: 1 <= k < |p| ==> p[k] != p[0]
    ensures Find(a + p, p) == Some(|a|)
  {
    var s := a + p;
    assert s[|a|..|a| + |p|] == p;
    forall j: nat | j < |a| ensures !OccursAt(s, p, j) {
      if j + |p| <= |a| {
        assert s[j..j + |p|] == a[j..j + |p|];
        assert !OccursAt(a, p, j);
      } else if j + |p| <= |s| {
        assert s[|a|] == p[0];
        assert s[j..j + |p|][|a| - j] == s[|a|];
      }
    }
    FindAt(s, p, |a|);
  }

  /** A piece of an occurrence is an occurrence of the piece. */
  lemma HtmlInIndexPage(s: string)
    requires Contains(s, IndexPage)
    ensures Contains(s, HtmlExt)
  {
    IndexPageFacts();
    var i :| 0 <= i <= |s| - |IndexPage| && OccursAt(s, IndexPage, i);
    OccursPiece(s, IndexPage, i, 6, 11);
    OccursAtContains(s, HtmlExt, i + 6);
  }

  /** `dir/index.html` has the page path `dir`, except that `index/index.html` gets
      the empty path of the home page. */
  lemma PagePathOfIndex(dir: string)
    requires '\\' !in dir && !Contains(dir, HtmlExt)
    ensures PagePath(dir + IndexPage) == if dir == "index" then [] else dir
  {
    var s := dir + IndexPage;
    assert '\\' !in s by {
      IndexPageFacts();
    }
    MapCharNoop(s, '\\', '/');
    IndexPageFacts();
    if Contains(dir, IndexPage) {
      HtmlInIndexPage(dir);
    }
    FirstAtEnd(dir, IndexPage);
    assert ReplaceFirst(s, IndexPage, "") == dir by {
      assert s[..|dir|] == dir;
      assert s[|dir| + |IndexPage|..] == [];
    }
  }

  /** `stem.html` has the page path `stem` (empty for `index`), when `stem` holds no
      `.html` and does not end in `/index`. */
  lemma PagePathOfHtml(stem: string)
    requires '\\' !in stem && !Contains(stem, HtmlExt)
    requires !Contains(stem + HtmlExt, IndexPage)
    ensures PagePath(stem + HtmlExt) == if stem == "index" then [] else stem
  {
    var s := stem + HtmlExt;
    assert '\\' !in s by {
      HtmlExtFacts();
    }
    MapCharNoop(s, '\\', '/');
    HtmlExtFacts();
    FirstAtEnd(stem, HtmlExt);
    assert ReplaceFirst(s, HtmlExt, "") == stem by {
      assert s[..|stem|] == stem;
      assert s[|stem| + |HtmlExt|..] == [];
    }
  }

  /** Windows separators do not change the page path. */
  lemma PagePathSeparators(relativePath: string)
    ensures PagePath(relativePath) == PagePath(MapChar(relativePath, '\\', '/'))
  {
    MapCharRemoves(relativePath, '\\', '/');
    MapCharNoop(MapChar(relativePath, '\\', '/'), '\\', '/');
  }

  /** Every canonical tag carries the marker the skip test looks for. */
  lemma TagCarriesRel(url: string)
    ensures Contains(CanonicalTag(url), CanonicalRel)
  {
    var t := CanonicalTag(url);
    assert t[|LinkOpen|..|LinkOpen| + |CanonicalRel|] == CanonicalRel;
    OccursAtContains(t, CanonicalRel, |LinkOpen|);
  }

  /** A file that already has a canonical link is skipped, and every other file is
      written (and counted). */
  lemma SkippedIffPresent(relativePath: string, content: string)
    ensures Canonicalised(relativePath, content).Skipped? <==> Contains(content, CanonicalRel)
  {
  }

  /** With a charset meta tag present, the link goes directly after the first match of
      the pattern and nothing else changes. */
  lemma InsertedAfterMeta(content: string, tag: string, i: nat)
    requires Contains(content, MetaOpen)
    requires i < |content| && Hits(MetaCharset, content[i..])
    requires forall k :: 0 <= k < i ==> !Hits(MetaCharset, content[k..])
    ensures var n := MetaCharset(content[i..]).value;
      i + n <= |content|
      && WithLink(content, tag) == content[..i] + (content[i..i + n] + Indent + tag) + content[i + n..]
  {
    SubFirstReplacesFirst(content, i, MetaCharset(content[i..]).value, MetaCharset, AfterMeta(tag));
  }

  /** Without a charset meta tag, the link goes directly after the first `<head>`. */
  lemma InsertedAfterHead(content: string, tag: string, i: nat)
    requires !Contains(content, MetaOpen)
    requires OccursAt(content, HeadOpen, i)
    requires forall j: nat :: j < i ==> !OccursAt(content, HeadOpen, j)
    ensures WithLink(content, tag) == content[..i] + (HeadOpen + Indent + tag) + content[i + |HeadOpen|..]
  {
    OccursAtContains(content, HeadOpen, i);
    ReplaceFirstAt(content, HeadOpen, HeadOpen + Indent + tag, i);
  }

  /** The file is rewritten unchanged, and still counted, when it has a `<meta charset`
      that the pattern does not match (then `<head>` is not tried), or neither anchor. */
  lemma UnchangedButCounted(relativePath: string, content: string)
    requires !Contains(content, CanonicalRel)
    requires Contains(content, MetaOpen) ==> NoHit(content, MetaCharset)
    requires !Contains(content, MetaOpen) ==> !Contains(content, HeadOpen)
    ensures Canonicalised(relativePath, content) == Written(content)
  {
    var tag := TagFor(relativePath);
    if Contains(content, MetaOpen) {
      SubNoHit(content, MetaCharset, AfterMeta(tag));
    }
    assert WithLink(content, tag) == content;
  }

  /** Text appended after a tag keeps the tag's occurrences. */
  lemma ContainsAfter(x: string, tag: string, p: string)
    requires Contains(tag, p)
    ensures Contains(x + tag, p)
  {
    ContainsInConcat(x, tag, [], p);
    ConcatEmpty(x + tag);
  }

  lemma LinkAfterMeta(content: string, tag: string, i: nat)
    requires Contains(content, MetaOpen)
    requires i < |content| && Hits(MetaCharset, content[i..])
    requires forall k :: 0 <= k < i ==> !Hits(MetaCharset, content[k..])
    requires Contains(tag, CanonicalRel)
    ensures Contains(WithLink(content, tag), CanonicalRel)
  {
    var n := MetaCharset(content[i..]).value;
    InsertedAfterMeta(content, tag, i);
    var r := WithLink(content, tag);
    assert r == content[..i] + (content[i..i + n] + Indent + tag + []) + content[i + n..];
    ContainsSpliced(r, content[..i], content[i..i + n] + Indent, tag, [], content[i + n..]);
    ContainsTrans(r, tag, CanonicalRel);
  }

  lemma LinkAfterHead(content: string, tag: string)
    requires !Contains(content, MetaOpen) && Contains(content, HeadOpen)
    requires Contains(tag, CanonicalRel)
    ensures Contains(WithLink(content, tag), CanonicalRel)
  {
    var i := Find(content, HeadOpen).value;
    InsertedAfterHead(content, tag, i);
    ContainsAfter(HeadOpen + Indent, tag, CanonicalRel);
    ContainsInConcat(content[..i], HeadOpen + Indent + tag, content[i + |HeadOpen|..], CanonicalRel);
  }

  /** When an anchor is found, the inserted tag is in the result. */
  lemma LinkInserted(content: string, tag: string)
    requires Contains(content, MetaOpen) ==> !NoHit(content, MetaCharset)
    requires !Contains(content, MetaOpen) ==> Contains(content, HeadOpen)
    requires Contains(tag, CanonicalRel)
    ensures Contains(WithLink(content, tag), CanonicalRel)
  {
    if Contains(content, MetaOpen) {
      var k :| 0 <= k < |content| && Hits(MetaCharset, content[k..]);
      var i := FirstHitFrom(content, MetaCharset, 0, k);
      LinkAfterMeta(content, tag, i);
    } else {
      LinkAfterHead(content, tag);
    }
  }

  /** Once the link has been inserted, running the script again skips the file. */
  lemma SecondRunSkips(relativePath: string, content: string, rerunPath: string)
    requires !Contains(content, CanonicalRel)
    requires Contains(content, MetaOpen) ==> !NoHit(content, MetaCharset)
    requires !Contains(content, MetaOpen) ==> Contains(content, HeadOpen)
    ensures Canonicalised(relativePath, content).Written?
    ensures Canonicalised(rerunPath, Canonicalised(relativePath, content).content) == Skipped
  {
    TagCarriesRel(CanonicalUrl(PagePath(relativePath)));
    LinkInserted(content, TagFor(relativePath));
  }

  /** The counter is the number of files that did not already have a canonical link. */
  lemma {:induction false} UpdatedCountsUnskipped(files: seq<SiteFile>, outcomes: seq<Outcome>)
    requires |outcomes| == |files|
    requires forall k :: 0 <= k < |files| ==>
      outcomes[k] == Canonicalised(files[k].relativePath, files[k].content)
    ensures WrittenCount(outcomes) == |files| - |AlreadyCanonical(files)|
  {
    if files != [] {
      var n := |files| - 1;
      UpdatedCountsUnskipped(files[..n], outcomes[..n]);
      assert outcomes[..n][..|outcomes[..n]|] == outcomes[..n];
      assert AlreadyCanonical(files) == AlreadyCanonical(files[..n])
        + (if Contains(files[n].content, CanonicalRel) then [files[n]] else []);
    }
  }

  /** The files that already carry a canonical link. */
  function AlreadyCanonical(files: seq<SiteFile>): (r: seq<SiteFile>)
    ensures forall f :: f in r ==> f in files && Contains(f.content, CanonicalRel)
  {
    if files == [] then []
    else
      var init := files[..|files| - 1];
      var last := files[|files| - 1];
      var r0 := AlreadyCanonical(init);
      assert forall f :: f in init ==> f in files;
      r0 + (if Contains(last.content, CanonicalRel) then [last] else [])
  }
}

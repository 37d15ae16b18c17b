/** scripts/repair-html-heads.py: put the lost viewport, stylesheet, font, script and
    icon tags back into the `<head>` of a page, after its canonical link or, without
    one, in front of the page-content rule of its inline style. */
module RepairHtmlHeads {
  import opened Text
  import opened Rewrite

  // ---------------------------------------------------------------------------
  // HEAD_TAGS_BLOCK, in named pieces
  // ---------------------------------------------------------------------------

  const MetaContentOpen := "<meta content=\""
  const ViewportWidth := "width=device-width, "
  const ViewportScale := "initial-scale=1\" "
  /** The viewport marker needs_repair looks for. */
  const ViewportMarker := "name=\"viewport\""
  const TagEnd := "/>"
  const ViewportHead := MetaContentOpen + ViewportWidth + ViewportScale
  const ViewportMeta := ViewportHead + ViewportMarker + TagEnd

  const LinkHref := "<link href=\""
  const CssDir := "/css/avir-site.shared"
  const CssFile := ".15a241810.css"
  /** The stylesheet path needs_repair looks for. */
  const CssPath := CssDir + CssFile
  const StylesheetRel := "\" rel=\"stylesheet\""
  const TextCssType := " type=\"text/css\"/>"
  const CssAttrs := StylesheetRel + TextCssType
  const CssLink := LinkHref + CssPath + CssAttrs

  const PreconnectEnd := "\" rel=\"preconnect\"/>"
  const FontsApi := "https://fonts.googleapis.com"
  const FontsStatic := "https://fonts.gstatic.com"
  const FontLinks := LinkHref + FontsApi + PreconnectEnd + LinkHref + FontsStatic + PreconnectEnd

  const ScriptSrc := "<script src=\""
  const JsTypeEnd := "\" type=\"text/javascript\"></script>"
  const InlineOpen := "<script type=\"text/javascript\">"
  const ScriptClose := "</script>"

  const WebfontHost := "https://ajax.googleapis.com"
  const WebfontPath := "/ajax/libs/webfont/1.6.26/webfont.js"
  const WebfontLoadHead := "WebFont.load({  google: {    "
  const WebfontLoadTail := "families: [\"Manrope:300,regular,600\"]  }});"
  const WebfontScripts := ScriptSrc + WebfontHost + WebfontPath + JsTypeEnd
    + InlineOpen + WebfontLoadHead + WebfontLoadTail + ScriptClose

  const TypekitSrc := "https://use.typekit.net/dqw5qdb.js"
  const TypekitLoad := "try{Typekit.load();}catch(e){}"
  const TypekitScripts := ScriptSrc + TypekitSrc + JsTypeEnd + InlineOpen + TypekitLoad + ScriptClose

  const TouchHead := "!function(o,c){var n=c.documentElement,"
  const TouchMod := "t=\" w-mod-\";n.className+=t+\"js\","
  const TouchTest := "(\"ontouchstart\"in o||o.DocumentTouch"
  const TouchInstance := "&&c instanceof DocumentTouch)"
  const TouchTail := "&&(n.className+=t+\"touch\")}(window,document);"
  const TouchScript := InlineOpen + TouchHead + TouchMod + TouchTest + TouchInstance + TouchTail + ScriptClose

  const ImagesDir := "/images/"
  const SiteId := "61aeaa63fc373a25c198ab33"
  const FaviconId := "_63615767e74213730c40ab8a"
  const FaviconName := "_AVIR Favicon.png"
  const FaviconRel := "\" rel=\"shortcut icon\""
  const FaviconType := " type=\"image/x-icon\"/>"
  const Favicon := LinkHref + ImagesDir + SiteId + FaviconId + FaviconName + FaviconRel + FaviconType
  const WebclipId := "_6361576fab509500a09d952b"
  const WebclipName := "_Webclip.png"
  const WebclipRel := "\" rel=\"apple-touch-icon\"/>"
  const Webclip := LinkHref + ImagesDir + SiteId + WebclipId + WebclipName + WebclipRel

  const RecaptchaHost := "https://www.google.com"
  const RecaptchaPath := "/recaptcha/api.js"
  const RecaptchaScript := ScriptSrc + RecaptchaHost + RecaptchaPath + JsTypeEnd
  const StyleOpen := "<style>"

  /** The tags of HEAD_TAGS_BLOCK, in order. */
  const BlockTags: seq<string> := [ViewportMeta, CssLink, FontLinks, WebfontScripts, TypekitScripts,
                                    TouchScript, Favicon, Webclip, RecaptchaScript, StyleOpen]

  /** The texts of parts, back to back. */
  function Concat(parts: seq<string>): string {
    if parts == [] then [] else parts[0] + Concat(parts[1..])
  }

  /** HEAD_TAGS_BLOCK. It holds no backslash, so as a re.sub template it stands for
      itself. */
  const HeadTagsBlock := Concat(BlockTags)

  // ---------------------------------------------------------------------------
  // needs_repair and repair_html
  // ---------------------------------------------------------------------------

  /** needs_repair: the viewport meta or the shared stylesheet is missing. */
  predicate NeedsRepair(content: string) {
    !(Contains(content, ViewportMarker) && Contains(content, CssPath))
  }

  const CanonicalRel := "<link rel=\"canonical\""
  const HrefOpen := " href=\""
  const CanonicalOpen := CanonicalRel + HrefOpen
  /** The `"/>` that closes the canonical link. */
  const LinkEnd := "\"/>"

  /** Group 1 of the canonical pattern at the start of t, `<link rel="canonical"
      href="[^"]*"/>`, by its length. The class cannot pass the first `"` after the
      opening, so that quote must begin `"/>`. */
  function CanonicalLink(t: string): (r: Option<nat>)
    ensures r.Some? ==> r.value <= |t|
  {
    if !StartsWith(t, CanonicalOpen) then None
    else
      var e := |CanonicalOpen| + RunWithout(t[|CanonicalOpen|..], '"');
      if StartsWith(t[e..], LinkEnd) then Some(e + |LinkEnd|) else None
  }

  /** The whole canonical pattern: the link and the white space after it. */
  function CanonicalMatch(t: string): (r: Option<nat>)
    ensures r.Some? <==> CanonicalLink(t).Some?
    ensures r.Some? ==> CanonicalLink(t).value <= r.value <= |t|
  {
    match CanonicalLink(t)
    case None => None
    case Some(g) => Some(g + SpaceRun(t[g..]))
  }

  const CanonicalPattern: Matcher := t => CanonicalMatch(t)

  const PageContentHead := ".page-content {opacity:0; "
  const PageContentTail := "transform: translate(-20px);}"
  /** The rule the second pattern matches, all of whose special characters are
      escaped in the source, so it is a literal. */
  const PageContentRule := PageContentHead + PageContentTail

  /** repair_html finds one of its two anchors. */
  predicate Anchored(content: string) {
    Search(content, CanonicalPattern).Some? || Contains(content, PageContentRule)
  }

  /** The expanded template `\1\n` + block + `\n`. */
  function LinkThenBlock(link: string, block: string): string {
    link + "\n" + block + "\n"
  }

  /** The rewrite of the canonical match at i: the link, a newline, the block and a
      newline, in place of the link and the white space after it. */
  function LinkRepair(content: string, block: string, i: nat): (r: string)
    requires i < |content| && CanonicalMatch(content[i..]).Some?
    ensures Contains(r, block)
  {
    var g, n := CanonicalLink(content[i..]).value, CanonicalMatch(content[i..]).value;
    var x := LinkThenBlock(content[i..i + g], block);
    assert Contains(x, block) by {
      ContainsSpliced(x, [], content[i..i + g] + "\n", block, "\n", []);
    }
    SpliceKeeps(content, i, n, x, block);
    Splice(content, i, n, x)
  }

  /** repair_html with block as the text to insert. The properties below hold for
      every block that carries the two markers, which HEAD_TAGS_BLOCK does. re.sub
      with count 1 rewrites the leftmost match, the one Search finds, by its template:
      the link, a newline, the block and a newline, in place of the link and the white
      space after it. */
  function RepairWith(content: string, block: string): string {
    match Search(content, CanonicalPattern)
    case Some(i) =>
      assert HitsAt(content, CanonicalPattern, i);
      LinkRepair(content, block, i)
    case None => RuleRepair(content, block)
  }

  /** Without a canonical link: the block and a newline in front of the first
      page-content rule, when there is one. */
  function RuleRepair(content: string, block: string): string {
    if Contains(content, PageContentRule) then
      ReplaceFirst(content, PageContentRule, block + "\n" + PageContentRule)
    else content
  }

  lemma RepairAtLink(content: string, block: string, i: nat)
    requires Search(content, CanonicalPattern) == Some(i)
    ensures i < |content| && CanonicalMatch(content[i..]).Some?
    ensures RepairWith(content, block) == LinkRepair(content, block, i)
  {
    assert HitsAt(content, CanonicalPattern, i);
  }

  /** repair_html. */
  function Repair(content: string): string {
    RepairWith(content, HeadTagsBlock)
  }

  /** block carries both markers needs_repair looks for. */
  predicate Marked(block: string) {
    Contains(block, ViewportMarker) && Contains(block, CssPath)
  }

  // ---------------------------------------------------------------------------
  // process_file and main
  // ---------------------------------------------------------------------------

  /** Reading a file: its text, or the message of the exception. */
  datatype Loaded = Loaded(text: string) | ReadFailed(message: string)

  /** The (was_modified, error_message) pair process_file returns. */
  datatype Outcome = Outcome(modified: bool, error: Option<string>)

  const NoInsertionPoint := "Could not find insertion point"

  /** process_file with block as the text to insert, with the read and the failure
      of the write, if any, as inputs. */
  function ProcessWith(read: Loaded, dryRun: bool, writeError: Option<string>, block: string): (o: Outcome)
    ensures o.modified ==> o.error.None?
    ensures read.ReadFailed? ==> o == Outcome(false, Some(read.message))
  {
    match read
    case ReadFailed(message) => Outcome(false, Some(message))
    case Loaded(text) =>
      if !NeedsRepair(text) then Outcome(false, None)
      else if RepairWith(text, block) == text then Outcome(false, Some(NoInsertionPoint))
      else if !dryRun && writeError.Some? then Outcome(false, Some(writeError.value))
      else Outcome(true, None)
  }

  /** The text process_file writes back, if any. */
  function WrittenWith(read: Loaded, dryRun: bool, writeError: Option<string>, block: string): Option<string> {
    if read.Loaded? && NeedsRepair(read.text) && RepairWith(read.text, block) != read.text
       && !dryRun && writeError.None?
    then Some(RepairWith(read.text, block))
    else None
  }

  /** process_file. */
  function ProcessFile(read: Loaded, dryRun: bool, writeError: Option<string>): Outcome {
    ProcessWith(read, dryRun, writeError, HeadTagsBlock)
  }

  /** What process_file writes back. */
  function WrittenText(read: Loaded, dryRun: bool, writeError: Option<string>): Option<string> {
    WrittenWith(read, dryRun, writeError, HeadTagsBlock)
  }

  /** One HTML file of the walk: its path relative to the site, what reading it
      gives, and whether writing it fails. */
  datatype SiteFile = SiteFile(relPath: string, read: Loaded, writeError: Option<string>)

  /** How main's loop counts an outcome; an empty error message is false in Python
      and counts as skipped. */
  datatype Tally = Modified | Skipped | Errored

  function TallyOf(o: Outcome): Tally {
    if o.error.Some? && o.error.value != [] then Errored
    else if o.modified then Modified
    else Skipped
  }

  /** The outcomes of process_file for files, in walk order. */
  function OutcomesOf(files: seq<SiteFile>, dryRun: bool): (os: seq<Outcome>)
    ensures |os| == |files|
  {
    if files == [] then []
    else
      var last := files[|files| - 1];
      OutcomesOf(files[..|files| - 1], dryRun) + [ProcessFile(last.read, dryRun, last.writeError)]
  }

  /** The number of outcomes counted as t. */
  function CountTally(os: seq<Outcome>, t: Tally): (c: nat)
    ensures c <= |os|
  {
    if os == [] then 0
    else CountTally(os[..|os| - 1], t) + (if TallyOf(os[|os| - 1]) == t then 1 else 0)
  }

  /** The (path, text) pairs written, in walk order. */
  function Writes(files: seq<SiteFile>, dryRun: bool): seq<(string, string)> {
    if files == [] then []
    else
      var last := files[|files| - 1];
      var w := WrittenText(last.read, dryRun, last.writeError);
      Writes(files[..|files| - 1], dryRun) + (if w.Some? then [(last.relPath, w.value)] else [])
  }

  lemma WalkStep(files: seq<SiteFile>, i: nat, dryRun: bool)
    requires i < |files|
    ensures var f := files[i];
      OutcomesOf(files[..i + 1], dryRun) == OutcomesOf(files[..i], dryRun) + [ProcessFile(f.read, dryRun, f.writeError)]
      && Writes(files[..i + 1], dryRun) == Writes(files[..i], dryRun)
        + (var w := WrittenText(f.read, dryRun, f.writeError); if w.Some? then [(f.relPath, w.value)] else [])
  {
    assert files[..i + 1][..i] == files[..i];
  }

  lemma CountStep(os: seq<Outcome>, o: Outcome)
    ensures forall t :: CountTally(os + [o], t) == CountTally(os, t) + (if TallyOf(o) == t then 1 else 0)
  {
    assert (os + [o])[..|os|] == os;
  }

  /** main, from the existence of the site directory on. */
  method RepairSite(siteExists: bool, files: seq<SiteFile>, dryRun: bool)
    returns (exitCode: int, modified: nat, skipped: nat, errors: nat, written: seq<(string, string)>)
    ensures !siteExists ==> exitCode == 1 && modified == 0 && skipped == 0 && errors == 0 && written == []
    ensures siteExists ==> modified == CountTally(OutcomesOf(files, dryRun), Modified)
    ensures siteExists ==> skipped == CountTally(OutcomesOf(files, dryRun), Skipped)
    ensures siteExists ==> errors == CountTally(OutcomesOf(files, dryRun), Errored)
    ensures siteExists ==> written == Writes(files, dryRun)
    ensures siteExists ==> (exitCode == 0 <==> errors == 0)
    ensures exitCode == 0 || exitCode == 1
  {
    if !siteExists {
      return 1, 0, 0, 0, [];
    }
    modified, skipped, errors, written := 0, 0, 0, [];
    ghost var outcomes: seq<Outcome> := [];
    for i := 0 to |files|
      invariant outcomes == OutcomesOf(files[..i], dryRun)
      invariant modified == CountTally(outcomes, Modified)
      invariant skipped == CountTally(outcomes, Skipped)
      invariant errors == CountTally(outcomes, Errored)
      invariant written == Writes(files[..i], dryRun)
    {
      var f := files[i];
      var outcome := ProcessFile(f.read, dryRun, f.writeError);
      var w := WrittenText(f.read, dryRun, f.writeError);
      WalkStep(files, i, dryRun);
      if w.Some? {
        written := written + [(f.relPath, w.value)];
      }
      CountStep(outcomes, outcome);
      outcomes := outcomes + [outcome];
      if outcome.error.Some? && outcome.error.value != [] {
        errors := errors + 1;
      } else if outcome.modified {
        modified := modified + 1;
      } else {
        skipped := skipped + 1;
      }
    }
    assert files[..|files|] == files;
    exitCode := if errors == 0 then 0 else 1;
  }

  // ---------------------------------------------------------------------------
  // Properties
  // ---------------------------------------------------------------------------

  /** HEAD_TAGS_BLOCK carries both markers needs_repair looks for. */
  lemma BlockMarkers()
    ensures Marked(HeadTagsBlock)
  {
    var rest := Concat(BlockTags[2..]);
    assert HeadTagsBlock == ViewportMeta + (CssLink + rest) by {
      assert Concat(BlockTags) == BlockTags[0] + Concat(BlockTags[1..]);
      assert Concat(BlockTags[1..]) == BlockTags[1..][0] + Concat(BlockTags[1..][1..]);
      assert BlockTags[1..][1..] == BlockTags[2..];
    }
    assert OccursAt(ViewportMarker, ViewportMarker, 0);
    ContainsInConcat(ViewportHead, ViewportMarker, TagEnd, ViewportMarker);
    ContainsInConcat([], ViewportMeta, CssLink + rest, ViewportMarker);
    ConcatEmpty(ViewportMeta);
    assert OccursAt(CssPath, CssPath, 0);
    ContainsInConcat(LinkHref, CssPath, CssAttrs, CssPath);
    ContainsInConcat(ViewportMeta, CssLink, rest, CssPath);
    ConcatAssoc(ViewportMeta, CssLink, rest);
  }

  /** Every character of x is Python white space. */
  predicate AllSpace(x: string) {
    forall k :: 0 <= k < |x| ==> PySpace(x[k])
  }

  /** A match of the canonical pattern at the start of t: the link, then all the white
      space after it. */
  lemma CanonicalShape(t: string)
    requires CanonicalMatch(t).Some?
    ensures var g, n := CanonicalLink(t).value, CanonicalMatch(t).value;
      g <= n && StartsWith(t[..g], CanonicalOpen) && AllSpace(t[g..n]) && (n < |t| ==> !PySpace(t[n]))
  {
    var g, n := CanonicalLink(t).value, CanonicalMatch(t).value;
    assert StartsWith(t, CanonicalOpen) && g <= n;
    PrefixStarts(t, CanonicalOpen, g);
    assert t[g..n] == t[g..][..n - g];
    if n < |t| {
      assert t[n] == t[g..][n - g];
    }
  }

  /** What starts at the match RepairWith rewrites: a canonical link, then all the
      white space after it. */
  lemma CanonicalAnchor(content: string, i: nat)
    requires Search(content, CanonicalPattern) == Some(i)
    ensures var g, n := CanonicalLink(content[i..]).value, CanonicalMatch(content[i..]).value;
      g <= n && i + n <= |content|
      && StartsWith(content[i..i + g], CanonicalOpen)
      && AllSpace(content[i + g..i + n])
      && (i + n < |content| ==> !PySpace(content[i + n]))
  {
    var t := content[i..];
    var g, n := CanonicalLink(t).value, CanonicalMatch(t).value;
    assert HitsAt(content, CanonicalPattern, i);
    CanonicalShape(t);
    SuffixSlice(content, i, g, n);
    SuffixSlice(content, i, 0, g);
  }

  /** That match is the leftmost one. */
  lemma CanonicalLeftmost(content: string, i: nat)
    requires Search(content, CanonicalPattern) == Some(i)
    ensures forall l :: 0 <= l < i ==> CanonicalMatch(content[l..]).None?
  {
    forall l | 0 <= l < i ensures CanonicalMatch(content[l..]).None? {
      assert !HitsAt(content, CanonicalPattern, l);
    }
  }

  /** Without a canonical link, the block goes in just before the first page-content
      rule, and nothing else changes. */
  lemma InsertedBeforeRule(content: string, block: string, i: nat)
    requires Search(content, CanonicalPattern).None?
    requires OccursAt(content, PageContentRule, i)
    requires forall j: nat :: j < i ==> !OccursAt(content, PageContentRule, j)
    ensures RepairWith(content, block) == content[..i] + (block + "\n") + content[i..]
  {
    OccursAtContains(content, PageContentRule, i);
    ReplaceFirstBefore(content, PageContentRule, block + "\n", i);
  }

  /** With an anchor the result holds the whole block; with neither anchor the text
      is unchanged. */
  lemma RepairCases(content: string, block: string)
    ensures Anchored(content) ==> Contains(RepairWith(content, block), block)
    ensures !Anchored(content) ==> RepairWith(content, block) == content
  {
    match Search(content, CanonicalPattern)
    case Some(i) => HoldsBlockAfterCanonical(content, block, i);
    case None =>
      if Contains(content, PageContentRule) {
        HoldsBlockBeforeRule(content, block, Find(content, PageContentRule).value);
      }
  }

  lemma HoldsBlockAfterCanonical(content: string, block: string, i: nat)
    requires Search(content, CanonicalPattern) == Some(i)
    ensures Contains(RepairWith(content, block), block)
  {
    RepairAtLink(content, block, i);
  }

  lemma HoldsBlockBeforeRule(content: string, block: string, i: nat)
    requires Search(content, CanonicalPattern).None?
    requires OccursAt(content, PageContentRule, i)
    requires forall j: nat :: j < i ==> !OccursAt(content, PageContentRule, j)
    ensures Contains(RepairWith(content, block), block)
  {
    var r := RepairWith(content, block);
    assert r == content[..i] + ([] + block + "\n") + content[i..] by {
      InsertedBeforeRule(content, block, i);
      ConcatEmpty(block);
    }
    ContainsSpliced(r, content[..i], [], block, "\n", content[i..]);
  }

  /** The repaired text no longer needs repair. */
  lemma RepairedNeedsNoRepair(content: string, block: string)
    requires Marked(block) && Anchored(content)
    ensures !NeedsRepair(RepairWith(content, block))
  {
    RepairCases(content, block);
    ContainsTrans(RepairWith(content, block), block, ViewportMarker);
    ContainsTrans(RepairWith(content, block), block, CssPath);
  }

  /** process_file on a text that is read: nothing to do when nothing is missing, a
      repair exactly when repair_html finds an anchor, and otherwise the
      insertion-point error. */
  lemma ProcessOutcomes(text: string, dryRun: bool, writeError: Option<string>, block: string)
    requires Marked(block)
    ensures !NeedsRepair(text) ==> ProcessWith(Loaded(text), dryRun, writeError, block) == Outcome(false, None)
    ensures NeedsRepair(text) && !Anchored(text) ==>
      ProcessWith(Loaded(text), dryRun, writeError, block) == Outcome(false, Some(NoInsertionPoint))
    ensures NeedsRepair(text) && Anchored(text) && (dryRun || writeError.None?) ==>
      ProcessWith(Loaded(text), dryRun, writeError, block) == Outcome(true, None)
    ensures WrittenWith(Loaded(text), dryRun, writeError, block).Some? <==>
      NeedsRepair(text) && Anchored(text) && !dryRun && writeError.None?
  {
    RepairCases(text, block);
    if Anchored(text) {
      RepairedNeedsNoRepair(text, block);
    }
  }

  /** A second run over a file the first run wrote leaves it alone: it is skipped
      and nothing is written. */
  lemma RerunIsNoOp(text: string, dryRun: bool, writeError: Option<string>, dryRun2: bool,
                    writeError2: Option<string>, block: string)
    requires Marked(block)
    requires WrittenWith(Loaded(text), dryRun, writeError, block).Some?
    ensures var again := Loaded(WrittenWith(Loaded(text), dryRun, writeError, block).value);
      ProcessWith(again, dryRun2, writeError2, block) == Outcome(false, None)
      && WrittenWith(again, dryRun2, writeError2, block).None?
  {
    ProcessOutcomes(text, dryRun, writeError, block);
    RepairedNeedsNoRepair(text, block);
  }

  /** The same for the script's own block. */
  lemma RerunSkips(text: string, dryRun: bool, writeError: Option<string>, dryRun2: bool, writeError2: Option<string>)
    requires WrittenText(Loaded(text), dryRun, writeError).Some?
    ensures var again := Loaded(WrittenText(Loaded(text), dryRun, writeError).value);
      ProcessFile(again, dryRun2, writeError2) == Outcome(false, None)
      && WrittenText(again, dryRun2, writeError2).None?
  {
    BlockMarkers();
    RerunIsNoOp(text, dryRun, writeError, dryRun2, writeError2, HeadTagsBlock);
  }

  /** Every outcome is counted exactly once. */
  lemma {:induction false} TalliesPartition(os: seq<Outcome>)
    ensures CountTally(os, Modified) + CountTally(os, Skipped) + CountTally(os, Errored) == |os|
  {
    if os != [] {
      TalliesPartition(os[..|os| - 1]);
    }
  }

  /** No error is counted iff no outcome carries a non-empty message. */
  lemma {:induction false} NoErrorsIff(os: seq<Outcome>)
    ensures CountTally(os, Errored) == 0 <==> forall k :: 0 <= k < |os| ==> TallyOf(os[k]) != Errored
  {
    if os != [] {
      var init := os[..|os| - 1];
      NoErrorsIff(init);
      assert forall k :: 0 <= k < |init| ==> init[k] == os[k];
    }
  }
}

/** scripts/repair-footer.py: strip the site's own script includes from a page and put
    one canonical block of five includes in front of every `</body>`. */
module RepairFooter {
  import opened Text
  import opened Rewrite

  // ---------------------------------------------------------------------------
  // The canonical block
  // ---------------------------------------------------------------------------

  // Long literals are written as short named pieces, which keeps the proofs about
  // their characters cheap.

  const SrcOpen := "<script src=\""
  /** The quote that closes the source, and the type attribute. */
  const TypeAttr := "\" type=\"text/javascript\""
  const ScriptEnd := "></script>"

  /** A script include as the block writes it. */
  function ScriptOf(src: string): (r: string)
    ensures |r| == |SrcOpen| + |src| + |TypeAttr| + |ScriptEnd|
  {
    SrcOpen + src + TypeAttr + ScriptEnd
  }

  const AvirSitePath := "/js/avir-site."
  const LocalJqueryPath := "/js/jquery"
  const CdnScheme := "https://"
  const CdnHostName := "d3e54v103j8qbb"
  const CdnDomain := ".cloudfront.net"
  const CloudfrontPath := CdnScheme + CdnHostName + CdnDomain + LocalJqueryPath

  const JqueryVersion := "-3.5.1.min"
  const JqueryHash := ".dc5e7f18c8.js"
  const SiteParam := "?site="
  const SiteIdHead := "61aeaa63fc373a25"
  const SiteIdTail := "c198ab33"
  const CloudfrontQuery := JqueryVersion + JqueryHash + SiteParam + SiteIdHead + SiteIdTail
  const CloudfrontJquery := CloudfrontPath + CloudfrontQuery

  const ChunkPrefix := "schunk."
  const MainPrefix := "86b83e24."
  const ChunkHash1 := "36b8fb49256177c8"
  const ChunkHash2 := "7f856e1c6c8f1316"
  const ChunkHash3 := "b4435221be879eb3"
  const MainHash := "08fc0919c2c74909"
  const JsExt := ".js"

  /** The sources of SCRIPTS_BLOCK, in order. */
  const BlockSources: seq<string> := [
    CloudfrontJquery,
    AvirSitePath + (ChunkPrefix + ChunkHash1 + JsExt),
    AvirSitePath + (ChunkPrefix + ChunkHash2 + JsExt),
    AvirSitePath + (ChunkPrefix + ChunkHash3 + JsExt),
    AvirSitePath + (MainPrefix + MainHash + JsExt)
  ]

  /** The includes for a list of sources, back to back. */
  function Scripts(srcs: seq<string>): string {
    if srcs == [] then [] else ScriptOf(srcs[0]) + Scripts(srcs[1..])
  }

  const ScriptsBlock := Scripts(BlockSources)

  const BodyClose := "</body>"

  // ---------------------------------------------------------------------------
  // The removal patterns
  // ---------------------------------------------------------------------------

  /** `<script src="` path `[^"]+` then `\.js"` when js holds (otherwise just `"`),
      then `[^>]*></script>`. Neither character class can run past the first `"`
      or the first `>`, so the match is decided by those two positions. */
  function TagLength(t: string, path: string, js: bool): (r: Option<nat>)
    ensures r.Some? ==> StartsWith(t, SrcOpen + path) && |SrcOpen + path| < r.value <= |t|
  {
    var p := SrcOpen + path;
    if !StartsWith(t, p) then None
    else
      var rest := t[|p|..];
      match Find(rest, "\"")
      case None => None
      case Some(j) =>
        if j < (if js then 4 else 1) || (js && rest[j - 3..j] != JsExt) then None
        else
          var after := rest[j + 1..];
          match Find(after, ">")
          case None => None
          case Some(g) =>
            if StartsWith(after[g..], ScriptEnd) then Some(|p| + j + 1 + g + |ScriptEnd|) else None
  }

  function Tag(path: string, js: bool): Matcher {
    t => TagLength(t, path, js)
  }

  /** `<script src="/js/avir-site\.[^"]+\.js"[^>]*></script>` */
  const AvirSiteTag := Tag(AvirSitePath, true)
  /** `<script src="/js/jquery[^"]+\.js"[^>]*></script>` */
  const LocalJqueryTag := Tag(LocalJqueryPath, true)
  /** `<script src="https://d3e54v103j8qbb\.cloudfront\.net/js/jquery[^"]+"[^>]*></script>` */
  const CloudfrontTag := Tag(CloudfrontPath, false)

  /** The three removals, in the script's order. */
  function Clean(content: string): string {
    var c1 := Sub(content, AvirSiteTag, Const(""));
    var c2 := Sub(c1, LocalJqueryTag, Const(""));
    Sub(c2, CloudfrontTag, Const(""))
  }

  /** The text repair_footer writes, or None when it returns False and writes nothing. */
  function Repaired(content: string): Option<string> {
    var c := Clean(content);
    if Contains(c, BodyClose) then Some(ReplaceAll(c, BodyClose, ScriptsBlock + BodyClose)) else None
  }

  /** repair_footer on the text of one file: the result is whether it wrote, and what. */
  method RepairFooter(content: string) returns (repaired: bool, written: Option<string>)
    ensures written == Repaired(content)
    ensures repaired <==> written.Some?
    ensures repaired <==> Contains(Clean(content), BodyClose)
  {
    var c := content;
    c := Sub(c, AvirSiteTag, Const(""));
    c := Sub(c, LocalJqueryTag, Const(""));
    c := Sub(c, CloudfrontTag, Const(""));
    if Contains(c, BodyClose) {
      var newContent := ReplaceAll(c, BodyClose, ScriptsBlock + BodyClose);
      written := Some(newContent);
      return true, written;
    }
    return false, None;
  }

  /** What a walk writes when each file's text goes through repair: the result of
      every `.html` file for which repair gives one, in walk order. */
  function WalkWrites(files: seq<(string, string)>, repair: string -> Option<string>): (r: seq<(string, string)>)
    ensures |r| <= |files|
    ensures forall f <- r :: EndsWith(f.0, ".html")
  {
    if files == [] then []
    else
      var done := WalkWrites(files[..|files| - 1], repair);
      var (path, content) := files[|files| - 1];
      if EndsWith(path, ".html") && repair(content).Some? then done + [(path, repair(content).value)]
      else done
  }

  /** What the walk writes: the repaired text of every `.html` file that has a
      `</body>` after cleaning, in walk order. */
  function RepairedFiles(files: seq<(string, string)>): (r: seq<(string, string)>)
    ensures |r| <= |files|
    ensures forall f <- r :: EndsWith(f.0, ".html")
  {
    WalkWrites(files, Repaired)
  }

  /** A (path, text) pair is written exactly when some `.html` file of the walk has
      that path and repairs to that text. */
  lemma {:induction false} WalkWritesIff(files: seq<(string, string)>, repair: string -> Option<string>, w: (string, string))
    ensures w in WalkWrites(files, repair) <==>
      exists i :: 0 <= i < |files| && files[i].0 == w.0 && EndsWith(w.0, ".html")
        && repair(files[i].1) == Some(w.1)
  {
    if files != [] {
      var init := files[..|files| - 1];
      WalkWritesIff(init, repair, w);
      if w in WalkWrites(init, repair) {
        var i :| 0 <= i < |init| && init[i].0 == w.0 && EndsWith(w.0, ".html") && repair(init[i].1) == Some(w.1);
        assert files[i] == init[i];
      }
      if exists i :: 0 <= i < |files| && files[i].0 == w.0 && EndsWith(w.0, ".html") && repair(files[i].1) == Some(w.1) {
        var i :| 0 <= i < |files| && files[i].0 == w.0 && EndsWith(w.0, ".html") && repair(files[i].1) == Some(w.1);
        if i < |init| {
          assert init[i] == files[i];
        }
      }
    }
  }

  /** The same for the footer repair. */
  lemma RepairedFilesIff(files: seq<(string, string)>, w: (string, string))
    ensures w in RepairedFiles(files) <==>
      exists i :: 0 <= i < |files| && files[i].0 == w.0 && EndsWith(w.0, ".html")
        && Repaired(files[i].1) == Some(w.1)
  {
    WalkWritesIff(files, Repaired, w);
  }

  /** The module-level loop over the files of the walk, as (path, content) pairs. */
  method RepairSite(files: seq<(string, string)>) returns (written: seq<(string, string)>)
    ensures written == RepairedFiles(files)
  {
    written := [];
    for i := 0 to |files|
      invariant written == WalkWrites(files[..i], Repaired)
    {
      assert files[..i + 1][..i] == files[..i];
      var (path, content) := files[i];
      if EndsWith(path, ".html") {
        var repaired, out := RepairFooter(content);
        if repaired {
          written := written + [(path, out.value)];
        }
      }
    }
    assert files[..|files|] == files;
  }

  // ---------------------------------------------------------------------------
  // Characters of the fixed pieces
  // ---------------------------------------------------------------------------

  /** No `<` and no `"`: a source the block could contain, or a path a pattern names. */
  predicate SourceOk(src: string) {
    forall i :: 0 <= i < |src| ==> src[i] != '<' && src[i] != '"'
  }

  /** A source that starts with path is a whole match of the pattern for path. */
  predicate Shaped(src: string, path: string, js: bool) {
    if js then |src| >= |path| + 4 && EndsWith(src, JsExt) else |src| >= |path| + 1
  }

  /** Text that starts with `<s` and has no other `<`, as every pattern's opening. */
  predicate OpeningLike(p: string) {
    |p| > 1 && p[0] == '<' && p[1] == 's' && forall i :: 1 <= i < |p| ==> p[i] != '<'
  }

  lemma SrcOpenFacts()
    ensures |SrcOpen| == 13 && SrcOpen[0] == '<' && SrcOpen[1] == 's'
    ensures forall i :: 1 <= i < 13 ==> SrcOpen[i] != '<'
  {
  }

  lemma TypeAttrFacts()
    ensures |TypeAttr| == 24 && TypeAttr[0] == '"'
    ensures forall i :: 0 <= i < 24 ==> TypeAttr[i] != '<' && TypeAttr[i] != '>'
  {
  }

  lemma ScriptEndFacts()
    ensures |ScriptEnd| == 10 && ScriptEnd[0] == '>' && ScriptEnd[1] == '<' && ScriptEnd[2] == '/'
    ensures forall i :: 2 <= i < 10 ==> ScriptEnd[i] != '<'
  {
  }

  lemma BodyCloseFacts()
    ensures |BodyClose| == 7 && BodyClose[0] == '<' && BodyClose[1] == '/'
    ensures forall i :: 1 <= i < 7 ==> BodyClose[i] != '<'
  {
  }

  lemma CdnPiecesOk()
    ensures SourceOk(CdnScheme) && SourceOk(CdnHostName) && SourceOk(CdnDomain)
    ensures SourceOk(LocalJqueryPath) && SourceOk(AvirSitePath)
  {
  }

  lemma QueryPiecesOk()
    ensures SourceOk(JqueryVersion) && SourceOk(JqueryHash) && SourceOk(SiteParam)
    ensures SourceOk(SiteIdHead) && SourceOk(SiteIdTail)
  {
  }

  lemma ChunkPiecesOk()
    ensures SourceOk(ChunkPrefix) && SourceOk(MainPrefix) && SourceOk(JsExt)
    ensures SourceOk(ChunkHash1) && SourceOk(ChunkHash2) && SourceOk(ChunkHash3) && SourceOk(MainHash)
  {
  }

  lemma SourceOkConcat(a: string, b: string)
    requires SourceOk(a) && SourceOk(b)
    ensures SourceOk(a + b)
  {
  }

  lemma SourceOk3(a: string, b: string, c: string)
    requires SourceOk(a) && SourceOk(b) && SourceOk(c)
    ensures SourceOk(a + b + c)
  {
    SourceOkConcat(a, b);
    SourceOkConcat(a + b, c);
  }

  lemma SourceOk5(a: string, b: string, c: string, d: string, e: string)
    requires SourceOk(a) && SourceOk(b) && SourceOk(c) && SourceOk(d) && SourceOk(e)
    ensures SourceOk(a + b + c + d + e)
  {
    SourceOk3(a, b, c);
    SourceOk3(a + b + c, d, e);
  }

  lemma PathsOk()
    ensures SourceOk(AvirSitePath) && SourceOk(LocalJqueryPath) && SourceOk(CloudfrontPath)
  {
    CdnPiecesOk();
    SourceOk3(CdnScheme, CdnHostName, CdnDomain);
    SourceOkConcat(CdnScheme + CdnHostName + CdnDomain, LocalJqueryPath);
  }

  /** The opening of a pattern has its only `<` in front, followed by `s`. */
  lemma OpeningShape(path: string)
    requires SourceOk(path)
    ensures OpeningLike(SrcOpen + path)
  {
    SrcOpenFacts();
    var p := SrcOpen + path;
    forall i | 1 <= i < |p| ensures p[i] != '<' {
      if i < 13 {
        assert p[i] == SrcOpen[i];
      } else {
        assert p[i] == path[i - 13];
      }
    }
  }

  lemma OpeningsShape()
    ensures OpeningLike(SrcOpen + AvirSitePath) && OpeningLike(SrcOpen + LocalJqueryPath)
    ensures OpeningLike(SrcOpen + CloudfrontPath)
  {
    PathsOk();
    OpeningShape(AvirSitePath);
    OpeningShape(LocalJqueryPath);
    OpeningShape(CloudfrontPath);
  }

  // ---------------------------------------------------------------------------
  // Where a tag opening can start
  // ---------------------------------------------------------------------------

  /** Inside a script include, a `<` is either its first character or the one of
      `</script>`, so no opening starts after position 0. */
  lemma NoOpenInside(src: string, rest: string, p: string, k: nat)
    requires SourceOk(src) && OpeningLike(p)
    requires 0 < k < |ScriptOf(src)|
    ensures !StartsWith((ScriptOf(src) + rest)[k..], p)
  {
    SrcOpenFacts();
    TypeAttrFacts();
    ScriptEndFacts();
    var x := ScriptOf(src);
    var t := x + rest;
    var n := |SrcOpen| + |src|;
    var e := n + |TypeAttr|;
    if k + |p| <= |t| {
      assert t[k..][..|p|][0] == t[k] == x[k];
      assert t[k..][..|p|][1] == t[k + 1];
      if k < |SrcOpen| {
        assert x[k] == SrcOpen[k];
      } else if k < n {
        assert x[k] == src[k - |SrcOpen|];
      } else if k < e {
        assert x[k] == TypeAttr[k - n];
      } else if k == e + 1 {
        assert t[k + 1] == x[k + 1] == ScriptEnd[2];
      } else {
        assert x[k] == ScriptEnd[k - e];
      }
    }
  }

  /** Text with no opening p, followed by text that is empty or starts with `<`,
      has no opening p starting inside the first part. */
  lemma NoOpenInText(a: string, rest: string, p: string, k: nat)
    requires OpeningLike(p)
    requires !Contains(a, p)
    requires rest == [] || rest[0] == '<'
    requires k < |a|
    ensures !StartsWith((a + rest)[k..], p)
  {
    var t := a + rest;
    if k + |p| <= |a| {
      assert t[k..][..|p|] == a[k..k + |p|];
      assert !OccursAt(a, p, k);
    } else if |p| <= |t| - k {
      var d := |a| - k;
      assert t[k..][..|p|][d] == t[|a|] == rest[0];
      assert p[d] != '<';
    }
  }

  /** `</body>` followed by text without an opening p contains none either. */
  lemma NoOpenAfterBody(b: string, p: string)
    requires OpeningLike(p)
    requires !Contains(b, p)
    ensures !Contains(BodyClose + b, p)
  {
    BodyCloseFacts();
    var t := BodyClose + b;
    forall k | 0 <= k <= |t| - |p| ensures !OccursAt(t, p, k) {
      if k == 0 {
        assert t[k..k + |p|][1] == BodyClose[1];
      } else if k < 7 {
        assert t[k..k + |p|][0] == BodyClose[k];
      } else {
        assert t[k..k + |p|] == b[k - 7..k - 7 + |p|];
        assert !OccursAt(b, p, k - 7);
      }
    }
  }

  /** No unfinished opening of any pattern before `</body>` + b when there is none in b. */
  lemma TailUnopened(b: string)
    requires Unopened(b)
    ensures Unopened(BodyClose + b)
  {
    OpeningsShape();
    NoOpenAfterBody(b, SrcOpen + AvirSitePath);
    NoOpenAfterBody(b, SrcOpen + LocalJqueryPath);
    NoOpenAfterBody(b, SrcOpen + CloudfrontPath);
  }

  // ---------------------------------------------------------------------------
  // The patterns on script includes
  // ---------------------------------------------------------------------------

  /** The text after an include's opening: the rest of the source, the type
      attribute and `></script>`. */
  lemma OpeningOfScript(src: string, path: string, rest: string)
    requires StartsWith(src, path)
    ensures StartsWith(ScriptOf(src) + rest, SrcOpen + path)
    ensures (ScriptOf(src) + rest)[|SrcOpen + path|..] == src[|path|..] + TypeAttr + ScriptEnd + rest
  {
    var r := src[|path|..] + TypeAttr + ScriptEnd + rest;
    assert ScriptOf(src) + rest == SrcOpen + src[..|path|] + r by {
      assert src == src[..|path|] + src[|path|..];
    }
  }

  /** The first `"` after the opening is the one that closes the source. */
  lemma QuoteOfScript(tail: string, rest: string)
    requires SourceOk(tail)
    ensures Find(tail + TypeAttr + ScriptEnd + rest, "\"") == Some(|tail|)
  {
    TypeAttrFacts();
    var r := tail + TypeAttr + ScriptEnd + rest;
    assert r[|tail|] == TypeAttr[0];
    forall v | 0 <= v < |tail| ensures r[v] != '"' {
      assert r[v] == tail[v];
    }
    FindChar(r, '"', |tail|);
  }

  /** After that quote, the first `>` is the one of `></script>`. */
  lemma CloseOfScript(rest: string)
    ensures Find(TypeAttr[1..] + ScriptEnd + rest, ">") == Some(23)
    ensures StartsWith((TypeAttr[1..] + ScriptEnd + rest)[23..], ScriptEnd)
  {
    TypeAttrFacts();
    ScriptEndFacts();
    var after := TypeAttr[1..] + ScriptEnd + rest;
    forall v | 0 <= v < 23 ensures after[v] != '>' {
      assert after[v] == TypeAttr[v + 1];
    }
    assert after[23] == ScriptEnd[0];
    FindChar(after, '>', 23);
    assert after[23..] == ScriptEnd + rest;
    StartsWithConcat(ScriptEnd, rest);
  }

  /** A source that starts with path and has the pattern's shape is removed as a
      whole include, whatever follows it. */
  lemma TagOfScript(src: string, path: string, js: bool, rest: string)
    requires SourceOk(src) && StartsWith(src, path) && Shaped(src, path, js)
    ensures TagLength(ScriptOf(src) + rest, path, js) == Some(|ScriptOf(src)|)
  {
    TypeAttrFacts();
    ScriptEndFacts();
    var tail := src[|path|..];
    var r := tail + TypeAttr + ScriptEnd + rest;
    OpeningOfScript(src, path, rest);
    assert SourceOk(tail) by {
      forall v | 0 <= v < |tail| ensures tail[v] != '<' && tail[v] != '"' {
        assert tail[v] == src[|path| + v];
      }
    }
    QuoteOfScript(tail, rest);
    AfterQuote(tail, rest);
    if js {
      assert tail[|tail| - 3..] == src[|src| - 3..];
    }
    CloseOfScript(rest);
  }

  lemma AfterQuote(tail: string, rest: string)
    ensures (tail + TypeAttr + ScriptEnd + rest)[|tail| + 1..] == TypeAttr[1..] + ScriptEnd + rest
    ensures |tail| >= 3 ==> (tail + TypeAttr + ScriptEnd + rest)[|tail| - 3..|tail|] == tail[|tail| - 3..]
  {
    TypeAttrFacts();
  }

  /** A source that does not start with path is not matched where its include starts. */
  lemma NoTagOfOtherScript(src: string, path: string, js: bool, rest: string)
    requires SourceOk(src) && SourceOk(path) && !StartsWith(src, path)
    ensures !Hits(Tag(path, js), ScriptOf(src) + rest)
  {
    SrcOpenFacts();
    TypeAttrFacts();
    var t := ScriptOf(src) + rest;
    var p := SrcOpen + path;
    if |t| >= |p| {
      if |src| >= |path| {
        assert t[..|p|][13..] == src[..|path|];
        assert p[13..] == path;
      } else {
        assert t[..|p|][13 + |src|] == TypeAttr[0];
        assert p[13 + |src|] == path[|src|];
      }
    }
  }

  /** No match starts anywhere inside the include of a source that does not start
      with the pattern's path. */
  lemma OtherScriptSkipped(src: string, rest: string, path: string, js: bool)
    requires SourceOk(path) && SourceOk(src) && !StartsWith(src, path)
    ensures forall k :: 0 <= k < |ScriptOf(src)| ==> !Hits(Tag(path, js), (ScriptOf(src) + rest)[k..])
  {
    var x := ScriptOf(src);
    OpeningShape(path);
    forall k | 0 <= k < |x| ensures !Hits(Tag(path, js), (x + rest)[k..]) {
      if k == 0 {
        NoTagOfOtherScript(src, path, js, rest);
        assert (x + rest)[0..] == x + rest;
      } else {
        NoOpenInside(src, rest, SrcOpen + path, k);
      }
    }
  }

  /** A pass over an include its pattern matches deletes it. */
  lemma HitStep(src: string, rest: string, path: string, js: bool)
    requires SourceOk(src) && StartsWith(src, path) && Shaped(src, path, js)
    ensures Sub(ScriptOf(src) + rest, Tag(path, js), Const("")) == Sub(rest, Tag(path, js), Const(""))
  {
    TagOfScript(src, path, js, rest);
    SubHitFirst(ScriptOf(src), rest, Tag(path, js), Const(""));
  }

  /** A pass over an include of another source copies it. */
  lemma SkipStep(src: string, rest: string, path: string, js: bool)
    requires SourceOk(path) && SourceOk(src) && !StartsWith(src, path)
    ensures Sub(ScriptOf(src) + rest, Tag(path, js), Const("")) ==
            ScriptOf(src) + Sub(rest, Tag(path, js), Const(""))
  {
    OtherScriptSkipped(src, rest, path, js);
    SubSkip(ScriptOf(src), rest, Tag(path, js), Const(""));
  }

  /** The sources a pattern for path leaves in place. */
  function Keep(srcs: seq<string>, path: string): (r: seq<string>)
    ensures forall s <- r :: s in srcs && !StartsWith(s, path)
    ensures forall s <- srcs :: !StartsWith(s, path) ==> s in r
  {
    if srcs == [] then []
    else if StartsWith(srcs[0], path) then Keep(srcs[1..], path)
    else [srcs[0]] + Keep(srcs[1..], path)
  }

  lemma ScriptsCons(s: string, srcs: seq<string>)
    ensures Scripts([s] + srcs) == ScriptOf(s) + Scripts(srcs)
  {
    assert ([s] + srcs)[1..] == srcs;
  }

  /** One removal pass over back-to-back includes deletes exactly those whose source
      starts with the pattern's path. */
  lemma {:induction false} PassOverScripts(srcs: seq<string>, tail: string, path: string, js: bool)
    requires SourceOk(path)
    requires forall s <- srcs :: SourceOk(s) && (StartsWith(s, path) ==> Shaped(s, path, js))
    ensures Sub(Scripts(srcs) + tail, Tag(path, js), Const("")) ==
            Scripts(Keep(srcs, path)) + Sub(tail, Tag(path, js), Const(""))
    decreases |srcs|
  {
    if srcs != [] {
      var m := Tag(path, js);
      var x := ScriptOf(srcs[0]);
      var rest := Scripts(srcs[1..]) + tail;
      var kept := Keep(srcs[1..], path);
      assert Scripts(srcs) == x + Scripts(srcs[1..]);
      ConcatAssoc(x, Scripts(srcs[1..]), tail);
      assert srcs[0] in srcs;
      assert forall s <- srcs[1..] :: s in srcs;
      PassOverScripts(srcs[1..], tail, path, js);
      assert Sub(rest, m, Const("")) == Scripts(kept) + Sub(tail, m, Const(""));
      if StartsWith(srcs[0], path) {
        HitStep(srcs[0], rest, path, js);
        assert Keep(srcs, path) == kept;
      } else {
        SkipStep(srcs[0], rest, path, js);
        assert Keep(srcs, path) == [srcs[0]] + kept;
        ScriptsCons(srcs[0], kept);
        ConcatAssoc(x, Scripts(kept), Sub(tail, m, Const("")));
      }
    } else {
      ConcatEmpty(tail);
      ConcatEmpty(Sub(tail, Tag(path, js), Const("")));
    }
  }

  /** A pass over text without the pattern's opening, followed by text that is
      empty or starts with `<`, copies the first part. */
  lemma PrefixSkipped(a: string, rest: string, path: string, js: bool)
    requires SourceOk(path) && !Contains(a, SrcOpen + path)
    requires rest == [] || rest[0] == '<'
    ensures Sub(a + rest, Tag(path, js), Const("")) == a + Sub(rest, Tag(path, js), Const(""))
  {
    OpeningShape(path);
    forall k | 0 <= k < |a| ensures !Hits(Tag(path, js), (a + rest)[k..]) {
      NoOpenInText(a, rest, SrcOpen + path, k);
    }
    SubSkip(a, rest, Tag(path, js), Const(""));
  }

  /** A pass over text without the pattern's opening changes nothing. */
  lemma TextUntouched(b: string, path: string, js: bool)
    requires SourceOk(path) && !Contains(b, SrcOpen + path)
    ensures Sub(b, Tag(path, js), Const("")) == b
  {
    OpeningShape(path);
    forall k | 0 <= k < |b| ensures !Hits(Tag(path, js), b[k..]) {
      NoOpenInText(b, [], SrcOpen + path, k);
      assert (b + [])[k..] == b[k..];
    }
    SubNoHit(b, Tag(path, js), Const(""));
  }

  /** One removal pass over text + includes + text, where neither text holds the
      pattern's opening and the second is empty or starts with `<`. */
  lemma PassOverPage(a: string, srcs: seq<string>, b: string, path: string, js: bool)
    requires SourceOk(path)
    requires forall s <- srcs :: SourceOk(s) && (StartsWith(s, path) ==> Shaped(s, path, js))
    requires !Contains(a, SrcOpen + path) && !Contains(b, SrcOpen + path)
    requires b == [] || b[0] == '<'
    ensures Sub(a + Scripts(srcs) + b, Tag(path, js), Const("")) == a + Scripts(Keep(srcs, path)) + b
  {
    SrcOpenFacts();
    var rest := Scripts(srcs) + b;
    assert a + Scripts(srcs) + b == a + rest;
    if srcs != [] {
      assert rest[0] == SrcOpen[0];
    }
    PrefixSkipped(a, rest, path, js);
    PassOverScripts(srcs, b, path, js);
    TextUntouched(b, path, js);
  }

  /** Nothing starts an opening of any pattern. */
  predicate Unopened(a: string) {
    !Contains(a, SrcOpen + AvirSitePath) && !Contains(a, SrcOpen + LocalJqueryPath) &&
    !Contains(a, SrcOpen + CloudfrontPath)
  }

  /** The sources each pattern matches as a whole include. */
  predicate ListedOk(srcs: seq<string>) {
    forall s <- srcs ::
      SourceOk(s) &&
      (StartsWith(s, AvirSitePath) ==> Shaped(s, AvirSitePath, true)) &&
      (StartsWith(s, LocalJqueryPath) ==> Shaped(s, LocalJqueryPath, true)) &&
      (StartsWith(s, CloudfrontPath) ==> Shaped(s, CloudfrontPath, false))
  }

  /** The three removals delete from a page every listed include a pattern names,
      and change nothing else, provided the text around the includes holds no
      unfinished opening of a pattern. */
  lemma CleanPage(a: string, srcs: seq<string>, b: string)
    requires ListedOk(srcs) && Unopened(a) && Unopened(b)
    requires b == [] || b[0] == '<'
    ensures Clean(a + Scripts(srcs) + b) ==
            a + Scripts(Keep(Keep(Keep(srcs, AvirSitePath), LocalJqueryPath), CloudfrontPath)) + b
  {
    PathsOk();
    var k1 := Keep(srcs, AvirSitePath);
    var k2 := Keep(k1, LocalJqueryPath);
    PassOverPage(a, srcs, b, AvirSitePath, true);
    PassOverPage(a, k1, b, LocalJqueryPath, true);
    PassOverPage(a, k2, b, CloudfrontPath, false);
  }

  // ---------------------------------------------------------------------------
  // The block
  // ---------------------------------------------------------------------------

  /** Every block script is a whole match of a removal pattern, whatever follows it:
      the CloudFront jquery of the CloudFront pattern, the four others of the
      avir-site one. */
  lemma BlockScriptsMatch(rest: string)
    ensures CloudfrontTag(ScriptOf(BlockSources[0]) + rest) == Some(|ScriptOf(BlockSources[0])|)
    ensures forall i :: 1 <= i < 5 ==>
      AvirSiteTag(ScriptOf(BlockSources[i]) + rest) == Some(|ScriptOf(BlockSources[i])|)
  {
    BlockSourceFacts();
    TagOfScript(BlockSources[0], CloudfrontPath, false, rest);
    forall i | 1 <= i < 5
      ensures AvirSiteTag(ScriptOf(BlockSources[i]) + rest) == Some(|ScriptOf(BlockSources[i])|)
    {
      TagOfScript(BlockSources[i], AvirSitePath, true, rest);
    }
  }

  /** What ListedOk knows about an avir-site source. */
  predicate AvirListed(s: string) {
    SourceOk(s) && StartsWith(s, AvirSitePath) && Shaped(s, AvirSitePath, true) &&
    !StartsWith(s, LocalJqueryPath) && !StartsWith(s, CloudfrontPath)
  }

  lemma BlockSourceFacts()
    ensures ListedOk(BlockSources)
    ensures StartsWith(BlockSources[0], CloudfrontPath) && Shaped(BlockSources[0], CloudfrontPath, false)
    ensures !StartsWith(BlockSources[0], AvirSitePath) && !StartsWith(BlockSources[0], LocalJqueryPath)
    ensures forall i :: 1 <= i < 5 ==> AvirListed(BlockSources[i])
  {
    CloudfrontSource();
    AvirSources();
    var b := BlockSources;
    forall s <- b
      ensures SourceOk(s) &&
        (StartsWith(s, AvirSitePath) ==> Shaped(s, AvirSitePath, true)) &&
        (StartsWith(s, LocalJqueryPath) ==> Shaped(s, LocalJqueryPath, true)) &&
        (StartsWith(s, CloudfrontPath) ==> Shaped(s, CloudfrontPath, false))
    {
      var i :| 0 <= i < 5 && b[i] == s;
      assert i == 0 || AvirListed(b[i]);
    }
  }

  lemma AvirSources()
    ensures forall i :: 1 <= i < 5 ==> AvirListed(BlockSources[i])
  {
    ChunkPiecesOk();
    AvirSource(ChunkPrefix, ChunkHash1);
    AvirSource(ChunkPrefix, ChunkHash2);
    AvirSource(ChunkPrefix, ChunkHash3);
    AvirSource(MainPrefix, MainHash);
  }

  /** The facts BlockSourceFacts needs about one avir-site source. */
  lemma AvirSource(name: string, hash: string)
    requires SourceOk(name) && SourceOk(hash) && SourceOk(JsExt) && |hash| > 0
    ensures AvirListed(AvirSitePath + (name + hash + JsExt))
  {
    PathsOk();
    var file := name + hash + JsExt;
    var s := AvirSitePath + file;
    SourceOk3(name, hash, JsExt);
    SourceOkConcat(AvirSitePath, file);
    StartsWithConcat(AvirSitePath, file);
    assert |s| == |AvirSitePath| + |name| + |hash| + 3;
    assert s[|s| - 3..] == file[|file| - 3..] == JsExt;
    assert s[..|LocalJqueryPath|][4] == AvirSitePath[4] != LocalJqueryPath[4];
    assert s[0] == AvirSitePath[0] != CloudfrontPath[0];
  }

  /** The facts BlockSourceFacts needs about the CloudFront jquery source. */
  lemma CloudfrontSource()
    ensures SourceOk(CloudfrontJquery) && StartsWith(CloudfrontJquery, CloudfrontPath)
    ensures Shaped(CloudfrontJquery, CloudfrontPath, false)
    ensures !StartsWith(CloudfrontJquery, AvirSitePath)
    ensures !StartsWith(CloudfrontJquery, LocalJqueryPath)
  {
    PathsOk();
    QueryPiecesOk();
    SourceOk5(JqueryVersion, JqueryHash, SiteParam, SiteIdHead, SiteIdTail);
    SourceOkConcat(CloudfrontPath, CloudfrontQuery);
    StartsWithConcat(CloudfrontPath, CloudfrontQuery);
    assert CloudfrontJquery[0] == CdnScheme[0] != AvirSitePath[0];
  }

  lemma KeepNone(srcs: seq<string>, path: string)
    requires forall s <- srcs :: StartsWith(s, path)
    ensures Keep(srcs, path) == []
  {
  }

  /** The three removals together match every block script. */
  lemma BlockKeep()
    ensures Keep(Keep(Keep(BlockSources, AvirSitePath), LocalJqueryPath), CloudfrontPath) == []
  {
    BlockSourceFacts();
    var b := BlockSources;
    assert b == [b[0]] + b[1..];
    KeepNone(b[1..], AvirSitePath);
    assert Keep(b, AvirSitePath) == [b[0]];
    assert Keep([b[0]], LocalJqueryPath) == [b[0]];
  }

  /** The removals applied to a repaired page take the block out again. */
  lemma CleanOfRepaired(a: string, b: string)
    requires Unopened(a) && Unopened(b)
    ensures Clean(a + ScriptsBlock + (BodyClose + b)) == a + (BodyClose + b)
  {
    BodyCloseFacts();
    TailUnopened(b);
    BlockSourceFacts();
    BlockKeep();
    CleanPage(a, BlockSources, BodyClose + b);
    assert Scripts([]) == [];
    assert a + [] + (BodyClose + b) == a + (BodyClose + b);
  }

  /** With exactly one `</body>` in the cleaned text, the block goes right in front of it. */
  lemma SingleBody(content: string, i: nat)
    requires OccursAt(Clean(content), BodyClose, i)
    requires forall j: nat :: j != i ==> !OccursAt(Clean(content), BodyClose, j)
    ensures Repaired(content) ==
            Some(Clean(content)[..i] + ScriptsBlock + (BodyClose + Clean(content)[i + 7..]))
  {
    var c := Clean(content);
    OccursAtContains(c, BodyClose, i);
    ReplaceAllOnce(c, BodyClose, ScriptsBlock + BodyClose, i);
    assert c[..i] + (ScriptsBlock + BodyClose) + c[i + 7..] ==
           c[..i] + ScriptsBlock + (BodyClose + c[i + 7..]);
  }

  /** The repair depends on a page only through the cleaned text. */
  lemma RepairedByClean(x: string, y: string)
    requires Clean(x) == Clean(y)
    ensures Repaired(x) == Repaired(y)
  {
  }

  lemma SplitAtBody(c: string, i: nat)
    requires OccursAt(c, BodyClose, i)
    ensures c == c[..i] + (BodyClose + c[i + 7..])
  {
    assert c[i..i + 7] == BodyClose;
    assert c == c[..i] + c[i..i + 7] + c[i + 7..];
  }

  /** Running the repair on its own output reproduces it, when the cleaned page has
      one `</body>` and no unfinished opening of a pattern on either side of it. */
  lemma SecondRunSame(content: string, i: nat)
    requires OccursAt(Clean(content), BodyClose, i)
    requires forall j: nat :: j != i ==> !OccursAt(Clean(content), BodyClose, j)
    requires Unopened(Clean(content)[..i]) && Unopened(Clean(content)[i + 7..])
    ensures Repaired(content).Some?
    ensures Repaired(Repaired(content).value) == Repaired(content)
  {
    var c := Clean(content);
    var a := c[..i];
    var b := c[i + 7..];
    SingleBody(content, i);
    var out := a + ScriptsBlock + (BodyClose + b);
    CleanOfRepaired(a, b);
    SplitAtBody(c, i);
    RepairedByClean(out, content);
  }

  // ---------------------------------------------------------------------------
  // Where an include occurs
  // ---------------------------------------------------------------------------

  /** An occurrence of w starts with every prefix of w. */
  lemma OccursPrefix(t: string, w: string, p: string, k: nat)
    requires StartsWith(w, p)
    ensures OccursAt(t, w, k) ==> StartsWith(t[k..], p)
  {
    if OccursAt(t, w, k) {
      assert t[k..][..|p|] == t[k..k + |w|][..|p|];
    }
  }

  /** Text without p contains nothing that starts with p. */
  lemma NotInText(t: string, w: string, p: string, k: nat)
    requires StartsWith(w, p) && !Contains(t, p)
    ensures !OccursAt(t, w, k)
  {
    if k + |w| <= |t| {
      assert t[k..k + |w|][..|p|] == t[k..k + |p|];
      assert !OccursAt(t, p, k);
    }
  }

  /** The include of a source opens with the opening of every path it starts with. */
  lemma ScriptOpening(s: string, path: string)
    requires StartsWith(s, path)
    ensures StartsWith(ScriptOf(s), SrcOpen + path)
  {
    assert ScriptOf(s)[..|SrcOpen + path|] == SrcOpen + s[..|path|];
  }

  /** An include starts with the include of s only when its own source is s: the
      quote after each source fixes the source's length. */
  lemma ScriptMatchAt0(s0: string, s: string, rest: string)
    requires SourceOk(s0) && SourceOk(s)
    ensures OccursAt(ScriptOf(s0) + rest, ScriptOf(s), 0) <==> s0 == s
  {
    TypeAttrFacts();
    var u := ScriptOf(s0) + rest;
    var w := ScriptOf(s);
    if OccursAt(u, w, 0) {
      assert u[..|w|] == w;
      assert w[13 + |s|] == TypeAttr[0];
      assert u[13 + |s|] == '"';
      assert |s| >= |s0|;
      assert u[13 + |s0|] == TypeAttr[0];
      assert w[13 + |s0|] == '"';
      assert |s0| == |s|;
      assert s0 == u[13..13 + |s|] == w[13..13 + |s|] == s;
    }
    if s0 == s {
      assert u[0..|w|] == w;
    }
  }

  /** The first j includes of a list, peeled from the front. */
  lemma ScriptsTake(srcs: seq<string>, j: nat)
    requires 0 < j <= |srcs|
    ensures Scripts(srcs[..j]) == ScriptOf(srcs[0]) + Scripts(srcs[1..][..j - 1])
  {
    assert srcs[..j] == [srcs[0]] + srcs[1..][..j - 1];
    ScriptsCons(srcs[0], srcs[1..][..j - 1]);
  }

  /** Entry j of srcs is s and its include starts at offset k. */
  predicate AtEntry(srcs: seq<string>, s: string, k: nat) {
    exists j :: 0 <= j < |srcs| && srcs[j] == s && k == |Scripts(srcs[..j])|
  }

  /** The offsets of a non-empty list: the first entry at 0, the others after its include. */
  lemma AtEntryCons(srcs: seq<string>, s: string, k: nat)
    requires srcs != []
    ensures AtEntry(srcs, s, k) <==>
            (k == 0 && srcs[0] == s) ||
            (k >= |ScriptOf(srcs[0])| && AtEntry(srcs[1..], s, k - |ScriptOf(srcs[0])|))
  {
    var x := ScriptOf(srcs[0]);
    var r := srcs[1..];
    assert srcs[..0] == [];
    forall j | 1 <= j <= |srcs|
      ensures |Scripts(srcs[..j])| == |x| + |Scripts(r[..j - 1])|
    {
      ScriptsTake(srcs, j);
    }
    if AtEntry(srcs, s, k) {
      var j :| 0 <= j < |srcs| && srcs[j] == s && k == |Scripts(srcs[..j])|;
      if j > 0 {
        assert r[j - 1] == s && k - |x| == |Scripts(r[..j - 1])|;
      }
    }
    if k == 0 && srcs[0] == s {
      assert srcs[0] == s && k == |Scripts(srcs[..0])|;
    }
    if k >= |x| && AtEntry(r, s, k - |x|) {
      var j' :| 0 <= j' < |r| && r[j'] == s && k - |x| == |Scripts(r[..j'])|;
      assert srcs[j' + 1] == s && k == |Scripts(srcs[..j' + 1])|;
    }
  }

  /** Where the include of s occurs in back-to-back includes followed by text without
      the opening of a path s starts with: exactly at the offsets of the entries equal
      to s. */
  lemma {:induction false} ScriptsOccur(srcs: seq<string>, tail: string, s: string, path: string, k: nat)
    requires SourceOk(path) && SourceOk(s) && StartsWith(s, path)
    requires forall v <- srcs :: SourceOk(v)
    requires !Contains(tail, SrcOpen + path)
    ensures OccursAt(Scripts(srcs) + tail, ScriptOf(s), k) <==> AtEntry(srcs, s, k)
    decreases |srcs|
  {
    var w := ScriptOf(s);
    var p := SrcOpen + path;
    ScriptOpening(s, path);
    if srcs == [] {
      ConcatEmpty(tail);
      NotInText(tail, w, p, k);
    } else {
      var x := ScriptOf(srcs[0]);
      var r := srcs[1..];
      var rest := Scripts(r) + tail;
      assert Scripts(srcs) == x + Scripts(r);
      ConcatAssoc(x, Scripts(r), tail);
      assert srcs[0] in srcs;
      assert forall v <- r :: v in srcs;
      AtEntryCons(srcs, s, k);
      if k == 0 {
        ScriptMatchAt0(srcs[0], s, rest);
      } else if k < |x| {
        OpeningShape(path);
        OccursPrefix(x + rest, w, p, k);
        NoOpenInside(srcs[0], rest, p, k);
      } else {
        ScriptsOccur(r, tail, s, path, k - |x|);
        ShiftOccurs(x, rest, w, k);
      }
    }
  }

  /** An occurrence past a prefix is an occurrence in the rest. */
  lemma ShiftOccurs(x: string, rest: string, w: string, k: nat)
    requires k >= |x|
    ensures OccursAt(x + rest, w, k) <==> OccursAt(rest, w, k - |x|)
  {
    if k + |w| <= |x| + |rest| {
      assert (x + rest)[k..k + |w|] == rest[k - |x|..k - |x| + |w|];
    }
  }

  /** The offsets of the includes on a page, after text a. */
  predicate AtPageEntry(a: string, srcs: seq<string>, s: string, k: nat) {
    k >= |a| && AtEntry(srcs, s, k - |a|)
  }

  /** The same on a whole page: text without the opening, the includes, and text that
      is empty or starts with `<` and has no opening either. */
  lemma PageOccur(a: string, srcs: seq<string>, tail: string, s: string, path: string, k: nat)
    requires SourceOk(path) && SourceOk(s) && StartsWith(s, path)
    requires forall v <- srcs :: SourceOk(v)
    requires !Contains(a, SrcOpen + path) && !Contains(tail, SrcOpen + path)
    requires tail == [] || tail[0] == '<'
    ensures OccursAt(a + Scripts(srcs) + tail, ScriptOf(s), k) <==> AtPageEntry(a, srcs, s, k)
  {
    SrcOpenFacts();
    var w := ScriptOf(s);
    var p := SrcOpen + path;
    var rest := Scripts(srcs) + tail;
    ConcatAssoc(a, Scripts(srcs), tail);
    if k < |a| {
      if srcs != [] {
        assert rest[0] == SrcOpen[0];
      } else {
        ConcatEmpty(tail);
      }
      OpeningShape(path);
      ScriptOpening(s, path);
      OccursPrefix(a + rest, w, p, k);
      NoOpenInText(a, rest, p, k);
    } else {
      ScriptsOccur(srcs, tail, s, path, k - |a|);
      ShiftOccurs(a, rest, w, k);
    }
  }

  /** The block's five sources are different from each other. */
  lemma BlockDistinct()
    ensures forall i, j :: 0 <= i < j < 5 ==> BlockSources[i] != BlockSources[j]
  {
    var b := BlockSources;
    assert b[0][0] == CdnScheme[0];
    assert b[1][0] == b[2][0] == b[3][0] == b[4][0] == AvirSitePath[0];
    assert b[1][14] == b[2][14] == b[3][14] == ChunkPrefix[0];
    assert b[4][14] == MainPrefix[0];
    assert b[1][21] == ChunkHash1[0];
    assert b[2][21] == ChunkHash2[0];
    assert b[3][21] == ChunkHash3[0];
  }

  /** The path of the pattern that removes block script j. */
  function BlockPath(j: nat): string {
    if j == 0 then CloudfrontPath else AvirSitePath
  }

  /** With exactly one `</body>` and no unfinished opening of a pattern on either
      side of it, every block script occurs in the repaired text exactly once, at
      its place in the block. */
  lemma BlockScriptsOnce(content: string, i: nat, j: nat, k: nat)
    requires OccursAt(Clean(content), BodyClose, i)
    requires forall v: nat :: v != i ==> !OccursAt(Clean(content), BodyClose, v)
    requires Unopened(Clean(content)[..i]) && Unopened(Clean(content)[i + 7..])
    requires j < 5
    ensures Repaired(content).Some?
    ensures OccursAt(Repaired(content).value, ScriptOf(BlockSources[j]), k) <==>
            k == i + |Scripts(BlockSources[..j])|
  {
    var c := Clean(content);
    var a := c[..i];
    var b := c[i + 7..];
    SingleBody(content, i);
    BodyCloseFacts();
    TailUnopened(b);
    PathsOk();
    BlockSourceFacts();
    BlockDistinct();
    var s := BlockSources[j];
    assert StartsWith(s, BlockPath(j)) && SourceOk(s);
    assert forall v <- BlockSources :: SourceOk(v);
    PageOccur(a, BlockSources, BodyClose + b, s, BlockPath(j), k);
    BlockOffsets(a, j, k);
  }

  /** Entry j is the only block entry equal to block source j. */
  lemma BlockOffsets(a: string, j: nat, k: nat)
    requires j < 5
    ensures AtPageEntry(a, BlockSources, BlockSources[j], k) <==> k == |a| + |Scripts(BlockSources[..j])|
  {
    BlockDistinct();
    var b := BlockSources;
    if AtPageEntry(a, b, b[j], k) {
      var j' :| 0 <= j' < |b| && b[j'] == b[j] && k - |a| == |Scripts(b[..j'])|;
      assert j' == j;
    }
    if k == |a| + |Scripts(b[..j])| {
      assert b[j] == b[j] && k - |a| == |Scripts(b[..j])|;
    }
  }
}

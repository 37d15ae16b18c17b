/** Leftmost, non-overlapping substitution, which is what Python's `re.sub` and
    `str.replace` and JavaScript's `replace` with a global pattern do. A pattern is
    represented by a matcher: given the text from the current scan position on, it
    answers how many characters a match starting at that position spans. The scan
    tries positions left to right, replaces a match and resumes after it, and
    otherwise copies one character. The concrete patterns of the scripts are
    hand-written matchers in the scripts' modules. */
module Rewrite {
  import opened Text

  type Matcher = string -> Option<nat>

  /** m reports a non-empty match at the start of t. */
  predicate Hits(m: Matcher, t: string) {
    m(t).Some? && 0 < m(t).value <= |t|
  }

  /** Replace every leftmost non-overlapping match of m by rep applied to it. */
  function Sub(s: string, m: Matcher, rep: string -> string): (r: string)
    decreases |s|
  {
    if s == [] then []
    else if Hits(m, s) then rep(s[..m(s).value]) + Sub(s[m(s).value..], m, rep)
    else [s[0]] + Sub(s[1..], m, rep)
  }

  /** Replace only the leftmost match (`count=1`, or a JavaScript pattern without g). */
  function SubFirst(s: string, m: Matcher, rep: string -> string): (r: string)
    decreases |s|
  {
    if s == [] then []
    else if Hits(m, s) then rep(s[..m(s).value]) + s[m(s).value..]
    else [s[0]] + SubFirst(s[1..], m, rep)
  }

  /** Every leftmost non-overlapping match of m, in order (Python `re.findall`
      for a pattern without groups). */
  function FindAll(s: string, m: Matcher): (r: seq<string>)
    decreases |s|
  {
    if s == [] then []
    else if Hits(m, s) then [s[..m(s).value]] + FindAll(s[m(s).value..], m)
    else FindAll(s[1..], m)
  }

  /** No match starts anywhere in s. */
  predicate NoHit(s: string, m: Matcher) {
    forall k :: 0 <= k < |s| ==> !Hits(m, s[k..])
  }

  /** The matcher answers the same on every suffix of a + b that starts inside a as
      on the corresponding suffix of a alone, and a match that begins in a ends in a. */
  predicate Closed(m: Matcher, a: string, b: string) {
    forall k :: 0 <= k < |a| ==>
      m((a + b)[k..]) == m(a[k..]) && (m(a[k..]).Some? ==> m(a[k..]).value <= |a| - k)
  }

  function Const(r: string): string -> string {
    _ => r
  }

  /** The template `\1...` where group 1 is the whole match: the match, then x. */
  function Append(x: string): string -> string {
    hit => hit + x
  }

  /** A match followed by a text holding p holds p. */
  lemma AppendHolds(hit: string, x: string, p: string)
    requires Contains(x, p)
    ensures Contains(Append(x)(hit), p)
  {
    ContainsInConcat(hit, x, [], p);
    assert hit + x + [] == hit + x;
  }

  /** The pattern consisting of the literal p. */
  function Lit(p: string): Matcher {
    t => if |p| > 0 && StartsWith(t, p) then Some(|p|) else None
  }

  // ---- pattern pieces, for the regular expressions that are sequences ----

  /** Two patterns one after the other. Each piece below has at most one way to
      match, so the first way is the one a backtracking matcher finds. */
  function Then(a: Matcher, b: Matcher): Matcher {
    t => match a(t)
      case None => None
      case Some(n) =>
        if n > |t| then None
        else match b(t[n..])
          case None => None
          case Some(k) => Some(n + k)
  }

  /** `[^c]*`, greedy: a following piece that starts with `c` leaves it no choice. */
  function Without(c: char): Matcher {
    t => Some(RunWithout(t, c))
  }

  /** `[^c]+`. */
  function SomeWithout(c: char): Matcher {
    t => if RunWithout(t, c) > 0 then Some(RunWithout(t, c)) else None
  }

  /** `[^>]*>`: the rest of a tag. */
  function TagRest(t: string): Option<nat> {
    var n := RunWithout(t, '>');
    if n < |t| then Some(n + 1) else None
  }

  /** `\s*` before a piece that does not start with white space. */
  function Spaces(t: string): Option<nat> {
    Some(SpaceRun(t))
  }

  /** `[^"]+` ending in suffix, then `"`: the rest of a quoted value. */
  function QuotedEnding(suffix: string): Matcher {
    t => var n := RunWithout(t, '"');
      if |suffix| < n < |t| && EndsWith(t[..n], suffix) then Some(n + 1) else None
  }

  /** The first k from which m matches t[k..], if any. */
  function LazyScan(m: Matcher, t: string): (r: Option<nat>)
    ensures r.Some? ==> r.value <= |t|
    decreases |t|
  {
    if m(t).Some? && m(t).value <= |t| then m(t)
    else if t == [] then None
    else match LazyScan(m, t[1..])
      case None => None
      case Some(k) => Some(k + 1)
  }

  /** The lazy scan stops at the first position from which m matches. */
  lemma {:induction false} LazyScanAt(m: Matcher, x: string, y: string)
    requires m(y).Some? && m(y).value <= |y|
    requires forall k :: 0 <= k < |x| ==> !(m((x + y)[k..]).Some? && m((x + y)[k..]).value <= |x + y| - k)
    ensures LazyScan(m, x + y) == Some(|x| + m(y).value)
    decreases |x|
  {
    if x == [] {
      assert x + y == y;
    } else {
      assert (x + y)[0..] == x + y;
      assert (x + y)[1..] == x[1..] + y;
      forall k | 0 <= k < |x[1..]|
        ensures !(m((x[1..] + y)[k..]).Some? && m((x[1..] + y)[k..]).value <= |x[1..] + y| - k)
      {
        assert (x[1..] + y)[k..] == (x + y)[k + 1..];
      }
      LazyScanAt(m, x[1..], y);
    }
  }

  /** `.*?` under DOTALL followed by m. */
  function Lazy(m: Matcher): Matcher {
    t => LazyScan(m, t)
  }

  /** A match of a on x followed by a match of b on y is a match of the two on x + y. */
  lemma ThenAt(a: Matcher, b: Matcher, x: string, y: string, rest: string)
    requires a(x + (y + rest)) == Some(|x|) && b(y + rest) == Some(|y|)
    ensures Then(a, b)(x + (y + rest)) == Some(|x| + |y|)
  {
    assert (x + (y + rest))[|x|..] == y + rest;
  }

  /** A literal followed by a match of `b`. */
  lemma LitThenAt(p: string, b: Matcher, y: string, rest: string)
    requires p != [] && b(y + rest) == Some(|y|)
    ensures Then(Lit(p), b)((p + y) + rest) == Some(|p + y|)
  {
    assert (p + y) + rest == p + (y + rest);
    LitAt(p, y + rest);
    ThenAt(Lit(p), b, p, y, rest);
  }

  /** A run of white space followed by a match of `b`. */
  lemma SpacesThenAt(ws: string, b: Matcher, y: string, rest: string)
    requires SpaceRun(ws) == |ws| && y != [] && !PySpace(y[0]) && b(y + rest) == Some(|y|)
    ensures Then(Spaces, b)((ws + y) + rest) == Some(|ws + y|)
  {
    assert (ws + y) + rest == ws + (y + rest);
    SpaceRunConcat(ws, y + rest);
    ThenAt(Spaces, b, ws, y, rest);
  }

  /** A quote-free value ending in the suffix, then its closing quote. */
  lemma QuotedEndingAt(suffix: string, v: string, rest: string)
    requires '"' !in v && |suffix| < |v| && EndsWith(v, suffix)
    ensures QuotedEnding(suffix)((v + "\"") + rest) == Some(|v + "\""|)
  {
    var t := (v + "\"") + rest;
    assert t == v + ("\"" + rest);
    RunWithoutConcat(v, "\"" + rest, '"');
    assert t[..|v|] == v;
  }

  /** A sequence whose literal head is missing does not match. */
  lemma LitThenMiss(p: string, b: Matcher, t: string)
    requires !StartsWith(t, p)
    ensures Then(Lit(p), b)(t).None?
  {
  }

  /** A sequence whose second piece fails after the first does not match. */
  lemma ThenSecondMiss(a: Matcher, b: Matcher, t: string, n: nat)
    requires a(t) == Some(n) && n <= |t| && b(t[n..]).None?
    ensures Then(a, b)(t).None?
  {
  }

  /** A quoted value no longer than the suffix cannot end in it. */
  lemma QuotedEndingShort(suffix: string, v: string)
    requires '"' !in v && |v| <= |suffix|
    ensures QuotedEnding(suffix)(v + "\"").None?
  {
    RunWithoutConcat(v, "\"", '"');
  }

  lemma LitAt(p: string, rest: string)
    requires p != []
    ensures Lit(p)(p + rest) == Some(|p|)
  {
    assert (p + rest)[..|p|] == p;
  }

  /** Python `str.replace(p, r)` and JavaScript `split(p).join(r)`, for p non-empty. */
  function ReplaceAll(s: string, p: string, r: string): string {
    Sub(s, Lit(p), Const(r))
  }

  lemma {:induction false} SubNoHit(s: string, m: Matcher, rep: string -> string)
    requires NoHit(s, m)
    ensures Sub(s, m, rep) == s
    ensures SubFirst(s, m, rep) == s
    decreases |s|
  {
    if s != [] {
      assert !Hits(m, s[0..]);
      assert NoHit(s[1..], m) by {
        forall k | 0 <= k < |s[1..]| ensures !Hits(m, s[1..][k..]) {
          assert s[1..][k..] == s[k + 1..];
        }
      }
      SubNoHit(s[1..], m, rep);
    }
  }

  /** Substituting in a + b is substituting in each piece when the pieces are closed. */
  lemma {:induction false} SubAppend(a: string, b: string, m: Matcher, rep: string -> string)
    requires Closed(m, a, b)
    ensures Sub(a + b, m, rep) == Sub(a, m, rep) + Sub(b, m, rep)
    decreases |a|
  {
    if a == [] {
      ConcatEmpty(b);
      ConcatEmpty(Sub(b, m, rep));
    } else {
      assert (a + b)[0..] == a + b && a[0..] == a;
      var n := if Hits(m, a) then m(a).value else 1;
      ClosedDrop(m, a, b, n);
      SubAppend(a[n..], b, m, rep);
      assert (a + b)[..n] == a[..n];
      var h := if Hits(m, a) then rep(a[..n]) else [a[0]];
      assert Sub(a, m, rep) == h + Sub(a[n..], m, rep);
      assert Sub(a + b, m, rep) == h + Sub(a[n..] + b, m, rep);
      ConcatAssoc(h, Sub(a[n..], m, rep), Sub(b, m, rep));
    }
  }

  /** When no match starts inside a, Sub copies a and goes on with b. */
  lemma {:induction false} SubSkip(a: string, b: string, m: Matcher, rep: string -> string)
    requires forall k :: 0 <= k < |a| ==> !Hits(m, (a + b)[k..])
    ensures Sub(a + b, m, rep) == a + Sub(b, m, rep)
    decreases |a|
  {
    if a == [] {
      assert a + b == b;
    } else {
      assert (a + b)[0..] == a + b;
      assert (a + b)[1..] == a[1..] + b;
      forall k | 0 <= k < |a[1..]| ensures !Hits(m, (a[1..] + b)[k..]) {
        assert (a[1..] + b)[k..] == (a + b)[k + 1..];
      }
      SubSkip(a[1..], b, m, rep);
      assert [a[0]] + a[1..] == a;
    }
  }

  /** A match spanning exactly a at the start of a + b replaces a. */
  lemma SubHitFirst(a: string, b: string, m: Matcher, rep: string -> string)
    requires |a| > 0 && m(a + b) == Some(|a|)
    ensures Sub(a + b, m, rep) == rep(a) + Sub(b, m, rep)
  {
    assert (a + b)[..|a|] == a;
    assert (a + b)[|a|..] == b;
  }

  /** Every text findall reports occurs in s. */
  lemma {:induction false} FindAllOccur(s: string, m: Matcher)
    ensures forall x :: x in FindAll(s, m) ==> Contains(s, x)
    decreases |s|
  {
    if s != [] {
      var n := if Hits(m, s) then m(s).value else 1;
      FindAllOccur(s[n..], m);
      forall x | x in FindAll(s[n..], m) ensures Contains(s, x) {
        var i :| 0 <= i <= |s[n..]| - |x| && OccursAt(s[n..], x, i);
        assert s[n + i..n + i + |x|] == s[n..][i..i + |x|];
        assert OccursAt(s, x, n + i);
      }
      if Hits(m, s) {
        assert OccursAt(s, s[..n], 0);
      }
    }
  }

  /** A single match spanning el, with no match starting before it or after it. */
  lemma SubAround(a: string, el: string, b: string, m: Matcher, rep: string -> string)
    requires forall k :: 0 <= k < |a| ==> !Hits(m, (a + (el + b))[k..])
    requires |el| > 0 && m(el + b) == Some(|el|) && NoHit(b, m)
    ensures Sub(a + el + b, m, rep) == a + rep(el) + b
  {
    SubSkip(a, el + b, m, rep);
    SubHitFirst(el, b, m, rep);
    SubNoHit(b, m, rep);
    ConcatAssoc(a, el, b);
    ConcatAssoc(a, rep(el), b);
  }

  /** Closedness survives dropping a prefix of a. */
  lemma ClosedDrop(m: Matcher, a: string, b: string, n: nat)
    requires Closed(m, a, b) && 0 < n <= |a|
    ensures (a + b)[n..] == a[n..] + b
    ensures Closed(m, a[n..], b)
  {
    forall k | 0 <= k < |a[n..]|
      ensures m((a[n..] + b)[k..]) == m(a[n..][k..])
      ensures m(a[n..][k..]).Some? ==> m(a[n..][k..]).value <= |a[n..]| - k
    {
      assert (a[n..] + b)[k..] == (a + b)[n + k..];
      assert a[n..][k..] == a[n + k..];
    }
  }

  /** When the first match in s starts at i, Sub copies s[..i], replaces the match
      and goes on after it. */
  lemma {:induction false} SubAtFirstHit(s: string, i: nat, m: Matcher, rep: string -> string)
    requires i < |s| && Hits(m, s[i..])
    requires forall k :: 0 <= k < i ==> !Hits(m, s[k..])
    ensures Sub(s, m, rep) == s[..i] + Sub(s[i..], m, rep)
    decreases i
  {
    if i > 0 {
      assert s[0..] == s;
      SkipOne(s, i, m);
      SubAtFirstHit(s[1..], i - 1, m, rep);
      assert s[1..][i - 1..] == s[i..];
      assert [s[0]] + s[1..][..i - 1] == s[..i];
      ConcatAssoc([s[0]], s[1..][..i - 1], Sub(s[i..], m, rep));
    }
  }

  /** The same for SubFirst, which stops after the replacement. */
  lemma {:induction false} SubFirstAtFirstHit(s: string, i: nat, m: Matcher, rep: string -> string)
    requires i < |s| && Hits(m, s[i..])
    requires forall k :: 0 <= k < i ==> !Hits(m, s[k..])
    ensures SubFirst(s, m, rep) == s[..i] + SubFirst(s[i..], m, rep)
    decreases i
  {
    if i > 0 {
      assert s[0..] == s;
      SkipOne(s, i, m);
      SubFirstAtFirstHit(s[1..], i - 1, m, rep);
      assert s[1..][i - 1..] == s[i..];
      assert [s[0]] + s[1..][..i - 1] == s[..i];
      ConcatAssoc([s[0]], s[1..][..i - 1], SubFirst(s[i..], m, rep));
    }
  }

  /** m matches at position l of s. Stated about s and l, rather than about the
      suffix, so that facts quantified over l do not fire on every suffix of s. */
  predicate HitsAt(s: string, m: Matcher, l: nat) {
    l <= |s| && Hits(m, s[l..])
  }

  /** The leftmost position at or after j where m matches (Python `re.search`). */
  function SearchFrom(s: string, m: Matcher, j: nat): (r: Option<nat>)
    ensures r.Some? ==> j <= r.value < |s| && HitsAt(s, m, r.value)
    ensures forall l :: j <= l < |s| && (r.None? || l < r.value) ==> !HitsAt(s, m, l)
    decreases |s| - j
  {
    if j >= |s| then None
    else if Hits(m, s[j..]) then Some(j)
    else SearchFrom(s, m, j + 1)
  }

  function Search(s: string, m: Matcher): (r: Option<nat>)
    ensures r.Some? ==> r.value < |s| && HitsAt(s, m, r.value)
    ensures r.Some? ==> forall l :: 0 <= l < r.value ==> !HitsAt(s, m, l)
    ensures r.None? ==> forall l :: 0 <= l < |s| ==> !HitsAt(s, m, l)
  {
    SearchFrom(s, m, 0)
  }

  /** Search finds nothing exactly when no match starts anywhere. */
  lemma SearchNone(s: string, m: Matcher)
    ensures Search(s, m).None? <==> NoHit(s, m)
  {
    if Search(s, m).None? {
      forall k | 0 <= k < |s| ensures !Hits(m, s[k..]) {
        assert !HitsAt(s, m, k);
      }
    } else {
      assert HitsAt(s, m, Search(s, m).value);
    }
  }

  /** The text m matches at i (group 0 of a Python match object). */
  function MatchAt(s: string, m: Matcher, i: nat): (r: string)
    requires HitsAt(s, m, i)
    ensures |r| == m(s[i..]).value
  {
    s[i..][..m(s[i..]).value]
  }

  /** Search finds the first position where m matches. */
  lemma SearchFinds(s: string, m: Matcher, i: nat)
    requires HitsAt(s, m, i)
    requires forall k :: 0 <= k < i ==> !HitsAt(s, m, k)
    ensures Search(s, m) == Some(i)
  {
    assert i < |s|;
  }

  /** The result of Sub shows the replacement of the first match. */
  lemma SubShowsFirst(s: string, m: Matcher, rep: string -> string, i: nat)
    requires Search(s, m) == Some(i)
    ensures Contains(Sub(s, m, rep), rep(MatchAt(s, m, i)))
  {
    assert HitsAt(s, m, i);
    forall k | 0 <= k < i ensures !Hits(m, s[k..]) {
      assert !HitsAt(s, m, k);
    }
    SubAtFirstHit(s, i, m, rep);
    var t := s[i..];
    var x := rep(t[..m(t).value]);
    var y := Sub(t[m(t).value..], m, rep);
    assert Sub(t, m, rep) == x + y;
    assert OccursAt(x, x, 0);
    ContainsInConcat(s[..i], x, y, x);
    ConcatAssoc(s[..i], x, y);
  }

  /** Every match of m starts with p. */
  ghost predicate LeadsWith(m: Matcher, p: string) {
    forall t :: Hits(m, t) ==> StartsWith(t, p)
  }

  /** A pattern whose matches start with p matches nowhere in a text without p. */
  lemma NoHitWithout(s: string, m: Matcher, p: string)
    requires LeadsWith(m, p) && !Contains(s, p)
    ensures NoHit(s, m)
  {
    forall k | 0 <= k < |s| ensures !Hits(m, s[k..]) {
      if k + |p| <= |s| {
        assert s[k..][..|p|] == s[k..k + |p|];
        assert !OccursAt(s, p, k);
      }
    }
  }

  /** SubFirst rewrites the match Search finds and keeps the text around it. */
  lemma SearchSubFirst(s: string, m: Matcher, rep: string -> string, i: nat)
    requires Search(s, m) == Some(i)
    ensures var n := m(s[i..]).value;
      0 < n <= |s[i..]| && SubFirst(s, m, rep) == s[..i] + (rep(s[i..][..n]) + s[i..][n..])
  {
    assert HitsAt(s, m, i);
    forall k | 0 <= k < i ensures !Hits(m, s[k..]) {
      assert !HitsAt(s, m, k);
    }
    SubFirstAtFirstHit(s, i, m, rep);
    SubFirstAtHit(s[i..], m(s[i..]).value, m, rep);
  }

  /** The leftmost match at or after j, given that one starts at k. */
  function FirstHitFrom(s: string, m: Matcher, j: nat, k: nat): (i: nat)
    requires j <= k < |s| && Hits(m, s[k..])
    ensures j <= i <= k && Hits(m, s[i..])
    ensures forall l :: j <= l < i ==> !Hits(m, s[l..])
    decreases k - j
  {
    if Hits(m, s[j..]) then j else FirstHitFrom(s, m, j + 1, k)
  }

  /** SubFirst rewrites the leftmost match, of length n at i, and keeps the text on
      both sides of it. */
  lemma SubFirstReplacesFirst(s: string, i: nat, n: nat, m: Matcher, rep: string -> string)
    requires i < |s| && m(s[i..]) == Some(n) && 0 < n <= |s| - i
    requires forall k :: 0 <= k < i ==> !Hits(m, s[k..])
    ensures SubFirst(s, m, rep) == s[..i] + rep(s[i..i + n]) + s[i + n..]
  {
    SubFirstAtFirstHit(s, i, m, rep);
    SubFirstAtHit(s[i..], n, m, rep);
    SliceOfSuffix(s, i, n);
    ConcatAssoc(s[..i], rep(s[i..i + n]), s[i + n..]);
  }

  lemma SliceOfSuffix(s: string, i: nat, n: nat)
    requires i + n <= |s|
    ensures s[i..][..n] == s[i..i + n] && s[i..][n..] == s[i + n..]
  {
  }

  lemma SubFirstAtHit(t: string, n: nat, m: Matcher, rep: string -> string)
    requires m(t) == Some(n) && 0 < n <= |t|
    ensures SubFirst(t, m, rep) == rep(t[..n]) + t[n..]
  {
  }

  lemma SkipOne(s: string, i: nat, m: Matcher)
    requires 0 < i < |s| && Hits(m, s[i..])
    requires forall k :: 0 <= k < i ==> !Hits(m, s[k..])
    ensures Hits(m, s[1..][i - 1..])
    ensures forall k :: 0 <= k < i - 1 ==> !Hits(m, s[1..][k..])
  {
    forall k | 0 <= k < i - 1 ensures !Hits(m, s[1..][k..]) {
      assert s[1..][k..] == s[k + 1..];
    }
    assert s[1..][i - 1..] == s[i..];
  }

  lemma LitHits(t: string, p: string)
    ensures Hits(Lit(p), t) <==> |p| > 0 && StartsWith(t, p)
    ensures Hits(Lit(p), t) ==> Lit(p)(t).value == |p|
  {
  }

  /** The literal pattern hits exactly where p occurs. */
  lemma LitHitOccurs(s: string, p: string, k: nat)
    requires k <= |s|
    ensures Hits(Lit(p), s[k..]) <==> |p| > 0 && OccursAt(s, p, k)
  {
    if k + |p| <= |s| {
      assert s[k..][..|p|] == s[k..k + |p|];
    }
  }

  /** With no occurrence of p, replacing p changes nothing. */
  /** Replacing a text within itself, then a pattern the replacement lacks, leaves
      the replacement. */
  lemma ReplaceThenAbsent(s: string, r: string, q: string, t: string)
    requires s != [] && !Contains(r, q)
    ensures ReplaceAll(ReplaceAll(s, s, r), q, t) == r
  {
    assert s + [] == s;
    SubHitFirst(s, [], Lit(s), Const(r));
    assert r + [] == r;
    ReplaceAllAbsent(r, q, t);
  }

  /** A text that is exactly the pattern becomes the replacement. */
  lemma ReplaceWhole(p: string, r: string)
    requires p != []
    ensures ReplaceAll(p, p, r) == r
  {
    LitAt(p, []);
    assert p + [] == p;
    SubHitFirst(p, [], Lit(p), Const(r));
    assert Sub([], Lit(p), Const(r)) == [];
    assert r + [] == r;
  }

  /** A text that starts with the pattern, with no other occurrence after it. */
  lemma ReplaceLeading(p: string, rest: string, r: string)
    requires p != [] && !Contains(rest, p)
    ensures ReplaceAll(p + rest, p, r) == r + rest
  {
    LitAt(p, rest);
    SubHitFirst(p, rest, Lit(p), Const(r));
    ReplaceAllAbsent(rest, p, r);
  }

  lemma ReplaceAllAbsent(s: string, p: string, r: string)
    requires !Contains(s, p)
    ensures ReplaceAll(s, p, r) == s
  {
    forall k | 0 <= k < |s| ensures !Hits(Lit(p), s[k..]) {
      LitHitOccurs(s, p, k);
      assert !OccursAt(s, p, k);
    }
    SubNoHit(s, Lit(p), Const(r));
  }

  /** No occurrence of p after its only occurrence. */
  lemma AbsentAfterOnly(s: string, p: string, i: nat)
    requires |p| > 0 && OccursAt(s, p, i)
    requires forall j: nat :: j != i ==> !OccursAt(s, p, j)
    ensures !Contains(s[i + |p|..], p)
  {
    var t := s[i + |p|..];
    forall j | 0 <= j <= |t| - |p| ensures !OccursAt(t, p, j) {
      assert t[j..j + |p|] == s[i + |p| + j..i + |p| + j + |p|];
      assert !OccursAt(s, p, i + |p| + j);
    }
  }

  /** When p occurs exactly once, at i, replacing p affects just that occurrence. */
  lemma ReplaceAllOnce(s: string, p: string, r: string, i: nat)
    requires |p| > 0 && OccursAt(s, p, i)
    requires forall j: nat :: j != i ==> !OccursAt(s, p, j)
    ensures ReplaceAll(s, p, r) == s[..i] + r + s[i + |p|..]
  {
    forall k | 0 <= k < i ensures !Hits(Lit(p), s[k..]) {
      LitHitOccurs(s, p, k);
    }
    LitHitOccurs(s, p, i);
    SubAtFirstHit(s, i, Lit(p), Const(r));
    var t := s[i + |p|..];
    assert s[i..][|p|..] == t;
    assert Sub(s[i..], Lit(p), Const(r)) == r + Sub(t, Lit(p), Const(r));
    AbsentAfterOnly(s, p, i);
    ReplaceAllAbsent(t, p, r);
    ConcatAssoc(s[..i], r, t);
  }

  /** Replacing a one-character pattern by one character is a character map. */
  lemma {:induction false} ReplaceAllChar(s: string, c: char, d: char)
    ensures ReplaceAll(s, [c], [d]) == MapChar(s, c, d)
    decreases |s|
  {
    if s != [] {
      ReplaceAllChar(s[1..], c, d);
      assert MapChar(s, c, d) == [if s[0] == c then d else s[0]] + MapChar(s[1..], c, d);
      if s[0] == c {
        assert StartsWith(s, [c]);
        assert s[1..] == s[|[c]|..];
      } else {
        assert !StartsWith(s, [c]);
      }
    }
  }
}

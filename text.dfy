/** Vocabulary shared by every script model: an Option type, occurrence search,
    prefix and suffix tests, ASCII case handling, trimming with the JavaScript and
    the Python notions of white space, character mapping, and splitting/joining. */
module Text {

  datatype Option<T> = None | Some(value: T)

  predicate StartsWith(s: string, p: string) {
    |p| <= |s| && s[..|p|] == p
  }

  predicate EndsWith(s: string, p: string) {
    |p| <= |s| && s[|s| - |p|..] == p
  }

  /** p occurs in s starting at index i. */
  predicate OccursAt(s: string, p: string, i: nat) {
    i + |p| <= |s| && s[i..i + |p|] == p
  }

  /** JavaScript `includes`, Python `in` on strings. */
  predicate Contains(s: string, p: string) {
    exists i :: 0 <= i <= |s| - |p| && OccursAt(s, p, i)
  }

  /** The first occurrence of p in s at or after k. */
  function FindFrom(s: string, p: string, k: nat): (r: Option<nat>)
    decreases |s| - k
    ensures r.Some? ==> k <= r.value && OccursAt(s, p, r.value)
    ensures forall j: nat :: k <= j && (r.None? || j < r.value) ==> !OccursAt(s, p, j)
  {
    if k + |p| > |s| then None
    else if s[k..k + |p|] == p then Some(k)
    else FindFrom(s, p, k + 1)
  }

  /** JavaScript `indexOf`, Python `find`: the first occurrence of p in s. */
  function Find(s: string, p: string): (r: Option<nat>)
    ensures r.Some? <==> Contains(s, p)
    ensures r.Some? ==> OccursAt(s, p, r.value)
    ensures r.Some? ==> forall j: nat :: j < r.value ==> !OccursAt(s, p, j)
  {
    FindFrom(s, p, 0)
  }

  lemma OccursAtContains(s: string, p: string, i: nat)
    requires OccursAt(s, p, i)
    ensures Contains(s, p)
  {
  }

  lemma ConcatAssoc<T>(a: seq<T>, b: seq<T>, c: seq<T>)
    ensures a + b + c == a + (b + c)
  {
  }

  /** Regrouping a text of five parts followed by a rest. */
  lemma Regroup5<T>(a: seq<T>, b: seq<T>, c: seq<T>, d: seq<T>, e: seq<T>, rest: seq<T>)
    ensures a + b + c + d + e + rest == (a + (b + (c + (d + e)))) + rest
  {
  }

  /** The middle part of a text of four parts. */
  lemma MiddleSlice<T>(a: seq<T>, b: seq<T>, c: seq<T>, d: seq<T>)
    ensures (a + (b + c) + d)[|a|..|a| + |b|] == b
  {
    assert (a + (b + c) + d)[|a|..|a| + |b|] == (b + c)[..|b|];
  }

  /** The two ends of a text of three parts. */
  lemma FrontOfThree<T>(a: seq<T>, b: seq<T>, c: seq<T>)
    ensures (a + b + c)[..|a|] == a && (a + b + c)[|a|..] == b + c
  {
  }

  lemma ConcatEmpty<T>(a: seq<T>)
    ensures [] + a == a && a + [] == a
  {
  }

  lemma StartsWithConcat(a: string, b: string)
    ensures StartsWith(a + b, a)
  {
    assert (a + b)[..|a|] == a;
  }

  /** The first occurrence of a single character c is at j when s[j] is c and c
      does not occur before j. */
  lemma FindChar(s: string, c: char, j: nat)
    requires j < |s| && s[j] == c
    requires forall v :: 0 <= v < j ==> s[v] != c
    ensures Find(s, [c]) == Some(j)
  {
    assert s[j..j + 1] == [c];
    assert OccursAt(s, [c], j);
    var v := Find(s, [c]).value;
    assert s[v..v + 1] == [c];
    assert s[v] == c;
  }

  /** A prefix of s long enough to hold p still starts with p. */
  lemma PrefixStarts(s: string, p: string, n: nat)
    requires StartsWith(s, p) && |p| <= n <= |s|
    ensures StartsWith(s[..n], p)
  {
    assert s[..n][..|p|] == s[..|p|];
  }

  /** Dropping k characters from the first n is taking n - k after the first k. */
  lemma PrefixDrop<T>(s: seq<T>, k: nat, n: nat)
    requires k <= n <= |s|
    ensures s[..n][k..] == s[k..][..n - k]
  {
  }

  /** Slicing the suffix from i is slicing s shifted by i. */
  lemma SuffixSlice<T>(s: seq<T>, i: nat, a: nat, b: nat)
    requires a <= b && i + b <= |s|
    ensures s[i..][..b] == s[i..i + b] && s[i..][a..b] == s[i + a..i + b]
    ensures i + b < |s| ==> s[i..][b] == s[i + b]
  {
  }

  /** An occurrence of p inside a piece of s is an occurrence in s. */
  lemma ContainsInConcat(a: string, b: string, c: string, p: string)
    requires Contains(b, p)
    ensures Contains(a + b + c, p)
  {
    var i :| 0 <= i <= |b| - |p| && OccursAt(b, p, i);
    assert (a + b + c)[|a| + i..|a| + i + |p|] == b[i..i + |p|];
    assert OccursAt(a + b + c, p, |a| + i);
  }

  /** A piece spliced into a text is contained in it. */
  lemma ContainsSpliced(r: string, a: string, x: string, b: string, y: string, c: string)
    requires r == a + (x + b + y) + c
    ensures Contains(r, b)
  {
    assert r[|a| + |x|..|a| + |x| + |b|] == b;
    assert OccursAt(r, b, |a| + |x|);
  }

  /** A text that contains b contains everything b contains. */
  lemma ContainsTrans(s: string, b: string, p: string)
    requires Contains(s, b) && Contains(b, p)
    ensures Contains(s, p)
  {
    var i :| 0 <= i <= |s| - |b| && OccursAt(s, b, i);
    var j :| 0 <= j <= |b| - |p| && OccursAt(b, p, j);
    OccursPiece(s, b, i, j, j + |p|);
    assert b[j..j + |p|] == p;
    OccursAtContains(s, p, i + j);
  }

  /** The first occurrence of p is at i when p occurs there and nowhere before. */
  lemma FindAt(s: string, p: string, i: nat)
    requires OccursAt(s, p, i)
    requires forall j: nat :: j < i ==> !OccursAt(s, p, j)
    ensures Find(s, p) == Some(i)
  {
    OccursAtContains(s, p, i);
  }

  /** An occurrence of p contains an occurrence of each of its pieces. */
  lemma OccursPiece(s: string, p: string, i: nat, a: nat, b: nat)
    requires OccursAt(s, p, i) && a <= b <= |p|
    ensures OccursAt(s, p[a..b], i + a)
  {
    forall k | 0 <= k < b - a ensures s[i + a..i + b][k] == p[a..b][k] {
      assert s[i + a + k] == s[i..i + |p|][a + k];
    }
  }

  /** s with the n characters from i on replaced by x. */
  function Splice(s: string, i: nat, n: nat, x: string): string
    requires i + n <= |s|
  {
    s[..i] + x + s[i + n..]
  }

  /** What is spliced in is contained in the result. */
  lemma SpliceKeeps(s: string, i: nat, n: nat, x: string, p: string)
    requires i + n <= |s| && Contains(x, p)
    ensures Contains(Splice(s, i, n, x), p)
  {
    ContainsInConcat(s[..i], x, s[i + n..], p);
  }

  /** JavaScript `String.replace` with a string pattern: only the first occurrence. */
  function ReplaceFirst(s: string, p: string, r: string): (t: string)
    ensures !Contains(s, p) ==> t == s
    ensures Contains(s, p) ==> exists i: nat :: (OccursAt(s, p, i)
      && (forall j: nat :: j < i ==> !OccursAt(s, p, j))
      && t == s[..i] + r + s[i + |p|..])
  {
    match Find(s, p)
    case None => s
    case Some(i) => s[..i] + r + s[i + |p|..]
  }

  lemma ReplaceFirstAt(s: string, p: string, r: string, i: nat)
    requires OccursAt(s, p, i)
    requires forall j: nat :: j < i ==> !OccursAt(s, p, j)
    ensures ReplaceFirst(s, p, r) == s[..i] + r + s[i + |p|..]
  {
    FindAt(s, p, i);
  }

  /** At an occurrence of p, the rest of s is p followed by what comes after it. */
  lemma OccursSplit(s: string, p: string, i: nat)
    requires OccursAt(s, p, i)
    ensures s[i..] == p + s[i + |p|..]
  {
    assert s[i..] == s[i..i + |p|] + s[i + |p|..];
  }

  /** Replacing the first p by b + p inserts b just before the first p. */
  lemma ReplaceFirstBefore(s: string, p: string, b: string, i: nat)
    requires OccursAt(s, p, i)
    requires forall j: nat :: j < i ==> !OccursAt(s, p, j)
    ensures ReplaceFirst(s, p, b + p) == s[..i] + b + s[i..]
  {
    ReplaceFirstAt(s, p, b + p, i);
    OccursSplit(s, p, i);
    ConcatAssoc(s[..i], b, p);
    ConcatAssoc(s[..i] + b, p, s[i + |p|..]);
  }

  /** Removing a piece of s adds no character to it. */
  lemma RemoveFirstKeepsOut(s: string, p: string, c: char)
    requires c !in s
    ensures c !in ReplaceFirst(s, p, "")
  {
    match Find(s, p)
    case None =>
    case Some(i) =>
      assert ReplaceFirst(s, p, "") == s[..i] + s[i + |p|..];
  }

  // ---- occurrences across a join ----

  /** An occurrence of p in a + x that starts inside a lies inside a, when no
      character of p after its first can be the first character of x. */
  lemma NoStraddle(a: string, x: string, p: string)
    requires !Contains(a, p) && x != []
    requires forall j :: 0 < j < |p| ==> p[j] != x[0]
    ensures forall k :: 0 <= k < |a| ==> !OccursAt(a + x, p, k)
  {
    forall k | 0 <= k < |a| ensures !OccursAt(a + x, p, k) {
      if k + |p| <= |a| {
        assert a[k..k + |p|] == (a + x)[k..k + |p|];
        assert !OccursAt(a, p, k);
      } else {
        assert (a + x)[|a|] == x[0];
      }
    }
  }

  /** Every character of an occurrence of p is a character of p. */
  lemma CharOfOccurrence(s: string, p: string, m: nat, i: nat)
    requires OccursAt(s, p, m) && m <= i < m + |p|
    ensures s[i] in p
  {
    assert s[i] == s[m..m + |p|][i - m];
  }

  /** An occurrence of p in a + x + b, where p holds neither the first nor the last
      character of x, lies in a + b or wholly inside x. */
  lemma OccursAround(a: string, x: string, b: string, p: string, m: nat)
    requires x != [] && x[0] !in p && x[|x| - 1] !in p
    requires OccursAt(a + x + b, p, m)
    ensures Contains(a + b, p) || (|a| <= m && m + |p| <= |a| + |x| && OccursAt(x, p, m - |a|))
  {
    var s := a + x + b;
    if m + |p| <= |a| {
      assert s[m..m + |p|] == (a + b)[m..m + |p|];
      assert OccursAt(a + b, p, m);
    } else if m >= |a| + |x| {
      assert s[m..m + |p|] == (a + b)[m - |x|..m - |x| + |p|];
      assert OccursAt(a + b, p, m - |x|);
    } else if m < |a| {
      CharOfOccurrence(s, p, m, |a|);
      assert false;
    } else if m + |p| > |a| + |x| {
      CharOfOccurrence(s, p, m, |a| + |x| - 1);
      assert false;
    } else {
      assert s[m..m + |p|] == x[m - |a|..m - |a| + |p|];
    }
  }

  /** p occurs in a + b only inside b when its first character is not in a. */
  lemma AbsentAcross(a: string, b: string, p: string)
    requires p != [] && p[0] !in a && !Contains(b, p)
    ensures !Contains(a + b, p)
  {
    forall k | 0 <= k <= |a + b| - |p| ensures !OccursAt(a + b, p, k) {
      if k < |a| {
        assert (a + b)[k] == a[k];
      } else {
        assert b[k - |a|..k - |a| + |p|] == (a + b)[k..k + |p|];
        assert !OccursAt(b, p, k - |a|);
      }
    }
  }

  /** A text without p holds no piece that starts with p. */
  lemma PieceAbsent(s: string, piece: string, p: string)
    requires !Contains(s, p) && StartsWith(piece, p)
    ensures !Contains(s, piece)
  {
    forall k | 0 <= k <= |s| - |piece| ensures !OccursAt(s, piece, k) {
      assert !OccursAt(s, p, k);
      assert s[k..k + |p|] == s[k..k + |piece|][..|p|];
    }
  }

  /** A text without p holds no piece that holds p. */
  lemma AbsentInner(s: string, piece: string, p: string, j: nat)
    requires !Contains(s, p) && OccursAt(piece, p, j)
    ensures !Contains(s, piece)
  {
    forall k | 0 <= k <= |s| - |piece| ensures !OccursAt(s, piece, k) {
      assert !OccursAt(s, p, k + j);
      var w := s[k..k + |piece|];
      assert j + |p| <= |w|;
      var x, y := w[j..j + |p|], s[k + j..k + j + |p|];
      forall v | 0 <= v < |p| ensures x[v] == y[v] {
        assert w[j + v] == s[k + j + v];
      }
      assert x == y;
    }
  }

  /** A text missing one of p's characters does not hold p. */
  lemma CharAbsent(s: string, p: string, j: nat)
    requires j < |p| && p[j] !in s
    ensures !Contains(s, p)
  {
    forall k | 0 <= k <= |s| - |p| ensures !OccursAt(s, p, k) {
      assert s[k..k + |p|][j] == s[k + j];
    }
  }

  /** A piece that holds p makes every text that holds the piece hold p. */
  lemma ContainsPiece(s: string, piece: string, p: string)
    requires Contains(s, piece) && StartsWith(piece, p)
    ensures Contains(s, p)
  {
    assert OccursAt(piece, p, 0);
    ContainsTrans(s, piece, p);
  }

  /** The leading run free of c stops where c first occurs. */
  lemma {:induction false} RunWithoutConcat(a: string, b: string, c: char)
    requires c !in a && b != [] && b[0] == c
    ensures RunWithout(a + b, c) == |a|
  {
    if a != [] {
      assert (a + b)[1..] == a[1..] + b;
      RunWithoutConcat(a[1..], b, c);
    }
  }

  /** The leading white space run is all of the white space before a non-space. */
  lemma {:induction false} SpaceRunConcat(w: string, b: string)
    requires forall v :: 0 <= v < |w| ==> PySpace(w[v])
    requires b != [] && !PySpace(b[0])
    ensures SpaceRun(w + b) == |w|
  {
    if w != [] {
      assert (w + b)[1..] == w[1..] + b;
      SpaceRunConcat(w[1..], b);
    }
  }

  // ---- ASCII case (JavaScript /i on ASCII patterns, Python lower() on ASCII) ----

  function Lower(c: char): char {
    if 'A' <= c <= 'Z' then (c as int + 32) as char else c
  }

  function Upper(c: char): char {
    if 'a' <= c <= 'z' then (c as int - 32) as char else c
  }

  function LowerStr(s: string): (r: string)
    ensures |r| == |s| && forall i :: 0 <= i < |s| ==> r[i] == Lower(s[i])
  {
    seq(|s|, i requires 0 <= i < |s| => Lower(s[i]))
  }

  /** s starts with p when letters are compared without regard to ASCII case. */
  predicate CiStartsWith(s: string, p: string) {
    |p| <= |s| && LowerStr(s[..|p|]) == LowerStr(p)
  }

  // ---- white space ----

  /** The characters JavaScript's trim() and the regex class \s remove or match. */
  predicate JsSpace(c: char) {
    c == ' ' || c == '\t' || c == '\n' || c == '\r' || c == '\U{B}' || c == '\U{C}'
    || c == '\U{A0}' || c == '\U{1680}' || ('\U{2000}' <= c <= '\U{200A}')
    || c == '\U{2028}' || c == '\U{2029}' || c == '\U{202F}' || c == '\U{205F}'
    || c == '\U{3000}' || c == '\U{FEFF}'
  }

  /** The characters for which Python's str.isspace() holds (strip(), regex \s). */
  predicate PySpace(c: char) {
    ('\t' <= c <= '\r') || ('\U{1C}' <= c <= '\U{1F}') || c == ' ' || c == '\U{85}'
    || c == '\U{A0}' || c == '\U{1680}' || ('\U{2000}' <= c <= '\U{200A}')
    || c == '\U{2028}' || c == '\U{2029}' || c == '\U{202F}' || c == '\U{205F}'
    || c == '\U{3000}'
  }

  /** The length of the leading run of t free of c (the regex class `[^c]*`, greedy). */
  function RunWithout(t: string, c: char): (r: nat)
    ensures r <= |t|
    ensures forall v :: 0 <= v < r ==> t[v] != c
    ensures r < |t| ==> t[r] == c
  {
    if t == [] || t[0] == c then 0 else 1 + RunWithout(t[1..], c)
  }

  /** Python `lstrip(c)`: s without its leading run of c. */
  function DropLeading(s: string, c: char): (r: string)
    ensures |r| <= |s| && r == s[|s| - |r|..]
    ensures r == [] || r[0] != c
  {
    if s != [] && s[0] == c then DropLeading(s[1..], c) else s
  }

  /** The length of the leading Python white space of t (greedy `\s*`). */
  function SpaceRun(t: string): (r: nat)
    ensures r <= |t|
    ensures forall v :: 0 <= v < r ==> PySpace(t[v])
    ensures r < |t| ==> !PySpace(t[r])
  {
    if t == [] || !PySpace(t[0]) then 0 else 1 + SpaceRun(t[1..])
  }

  function TrimStart(s: string, sp: char -> bool): (r: string)
    ensures |r| <= |s| && r == s[|s| - |r|..]
    ensures r == [] || !sp(r[0])
    ensures forall i :: 0 <= i < |s| - |r| ==> sp(s[i])
  {
    if s != [] && sp(s[0]) then
      var r := TrimStart(s[1..], sp);
      assert s[1..][|s| - 1 - |r|..] == s[|s| - |r|..];
      assert forall i :: 1 <= i < |s| - |r| ==> s[i] == s[1..][i - 1];
      r
    else s
  }

  function TrimEnd(s: string, sp: char -> bool): (r: string)
    ensures |r| <= |s| && r == s[..|r|]
    ensures r == [] || !sp(r[|r| - 1])
    ensures forall i :: |r| <= i < |s| ==> sp(s[i])
  {
    if s != [] && sp(s[|s| - 1]) then
      var r := TrimEnd(s[..|s| - 1], sp);
      assert s[..|s| - 1][..|r|] == s[..|r|];
      assert forall i :: |r| <= i < |s| - 1 ==> s[i] == s[..|s| - 1][i];
      r
    else s
  }

  /** Remove leading and trailing characters satisfying sp. */
  function Trim(s: string, sp: char -> bool): (r: string)
    ensures r == [] || (!sp(r[0]) && !sp(r[|r| - 1]))
    ensures exists a: nat, b: nat :: (a <= b <= |s| && r == s[a..b]
      && (forall i :: 0 <= i < a ==> sp(s[i])) && (forall i :: b <= i < |s| ==> sp(s[i])))
  {
    var l := TrimStart(s, sp);
    var r := TrimEnd(l, sp);
    assert r == s[|s| - |l|..|s| - |l| + |r|];
    r
  }

  lemma {:induction false} TrimStartNoop(s: string, sp: char -> bool)
    requires s == [] || !sp(s[0])
    ensures TrimStart(s, sp) == s
  {
  }

  lemma {:induction false} TrimEndKeepsStart(s: string, sp: char -> bool)
    requires s == [] || !sp(s[0])
    ensures TrimEnd(s, sp) == [] || !sp(TrimEnd(s, sp)[0])
  {
  }

  /** Trimming twice is trimming once. */
  lemma TrimIdempotent(s: string, sp: char -> bool)
    ensures Trim(Trim(s, sp), sp) == Trim(s, sp)
  {
    var t := Trim(s, sp);
    TrimStartNoop(t, sp);
    TrimEndNoopOnTrimmed(t, sp);
  }

  lemma TrimEndNoopOnTrimmed(t: string, sp: char -> bool)
    requires t == [] || !sp(t[|t| - 1])
    ensures TrimEnd(t, sp) == t
  {
  }

  /** A text whose ends are not space is its own trim. */
  lemma TrimNoop(s: string, sp: char -> bool)
    requires s == [] || (!sp(s[0]) && !sp(s[|s| - 1]))
    ensures Trim(s, sp) == s
  {
    TrimStartNoop(s, sp);
    TrimEndNoopOnTrimmed(s, sp);
  }

  function JsTrim(s: string): string { Trim(s, JsSpace) }

  function PyStrip(s: string): string { Trim(s, PySpace) }

  // ---- characters ----

  /** Replace every occurrence of the character c by d. */
  function MapChar(s: string, c: char, d: char): (r: string)
    ensures |r| == |s|
    ensures forall i :: 0 <= i < |s| ==> r[i] == (if s[i] == c then d else s[i])
  {
    seq(|s|, i requires 0 <= i < |s| => if s[i] == c then d else s[i])
  }

  lemma MapCharNoop(s: string, c: char, d: char)
    requires c !in s
    ensures MapChar(s, c, d) == s
  {
  }

  lemma MapCharRemoves(s: string, c: char, d: char)
    requires c != d
    ensures c !in MapChar(s, c, d)
  {
  }

  lemma MapCharConcat(a: string, b: string, c: char, d: char)
    ensures MapChar(a + b, c, d) == MapChar(a, c, d) + MapChar(b, c, d)
  {
  }

  lemma LowerStrConcat(a: string, b: string)
    ensures LowerStr(a + b) == LowerStr(a) + LowerStr(b)
  {
  }

  // ---- splitting and joining on one character ----

  /** JavaScript `split(c)` / Python `split(c)` on a one-character separator. */
  function Split(s: string, c: char): (parts: seq<string>)
    ensures |parts| >= 1
    ensures forall i :: 0 <= i < |parts| ==> c !in parts[i]
  {
    if s == [] then [[]]
    else
      var rest := Split(s[1..], c);
      if s[0] == c then [[]] + rest
      else [[s[0]] + rest[0]] + rest[1..]
  }

  /** JavaScript `join(c)` / Python `c.join`. */
  function Join(parts: seq<string>, c: char): string
    requires |parts| >= 1
  {
    if |parts| == 1 then parts[0] else parts[0] + [c] + Join(parts[1..], c)
  }

  /** A character absent from s is absent from every piece of its split. */
  lemma {:induction false} SplitKeepsOut(s: string, c: char, x: char)
    requires x !in s
    ensures forall i :: 0 <= i < |Split(s, c)| ==> x !in Split(s, c)[i]
  {
    if s != [] {
      SplitKeepsOut(s[1..], c, x);
    }
  }

  lemma {:induction false} JoinSplit(s: string, c: char)
    ensures Join(Split(s, c), c) == s
  {
    if s != [] {
      JoinSplit(s[1..], c);
      var rest := Split(s[1..], c);
      if s[0] != c {
        if |rest| > 1 {
          assert Join([[s[0]] + rest[0]] + rest[1..], c)
              == [s[0]] + rest[0] + [c] + Join(rest[1..], c);
        }
      }
    }
  }

  lemma {:induction false} SplitJoin(parts: seq<string>, c: char)
    requires |parts| >= 1
    requires forall i :: 0 <= i < |parts| ==> c !in parts[i]
    ensures Split(Join(parts, c), c) == parts
  {
    if |parts| == 1 {
      SplitNoSeparator(parts[0], c);
    } else {
      SplitJoin(parts[1..], c);
      SplitPrefix(parts[0], Join(parts[1..], c), c);
      assert parts == [parts[0]] + parts[1..];
    }
  }

  lemma {:induction false} SplitNoSeparator(s: string, c: char)
    requires c !in s
    ensures Split(s, c) == [s]
  {
    if s != [] {
      SplitNoSeparator(s[1..], c);
      assert [s[0]] + s[1..] == s;
    }
  }

  lemma {:induction false} SplitPrefix(a: string, b: string, c: char)
    requires c !in a
    ensures Split(a + [c] + b, c) == [a] + Split(b, c)
  {
    if a == [] {
      assert a + [c] + b == [c] + b;
      assert ([c] + b)[1..] == b;
    } else {
      assert (a + [c] + b)[1..] == a[1..] + [c] + b;
      SplitPrefix(a[1..], b, c);
      assert [a[0]] + a[1..] == a;
    }
  }

  /** The text before the first c (Python `s.split(c)[0]`). */
  function Before(s: string, c: char): (r: string)
    ensures c !in r && StartsWith(s, r)
    ensures |r| < |s| ==> s[|r|] == c
  {
    if s == [] || s[0] == c then [] else [s[0]] + Before(s[1..], c)
  }
}

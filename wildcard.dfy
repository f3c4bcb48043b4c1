module Wildcard {

  /** The SQL LIKE semantics the matcher is meant to implement: '%' matches any
      run of characters (possibly empty), '_' matches exactly one character, and
      every other character matches itself. Both ends are anchored. */
  predicate Like(text: string, pattern: string)
    decreases |pattern|, |text|
  {
    if pattern == [] then text == []
    else if pattern[0] == '%' then Like(text, pattern[1..]) || (text != [] && Like(text[1..], pattern))
    else text != [] && (pattern[0] == '_' || pattern[0] == text[0]) && Like(text[1..], pattern[1..])
  }

  /** A lone '%' matches every text, the empty one included. */
  lemma {:induction false} AnyRunMatchesAll(text: string)
    ensures Like(text, "%")
    decreases |text|
  {
    assert "%"[1..] == [];
    if text != [] { AnyRunMatchesAll(text[1..]); }
  }

  predicate EndsWith(text: string, s: string) {
    |s| <= |text| && text[|text| - |s|..] == s
  }

  /** '%' followed by ordinary characters matches exactly the texts that end with
      those characters. */
  lemma {:induction false} SuffixPattern(text: string, s: string)
    requires NoWild(s)
    ensures Like(text, "%" + s) <==> EndsWith(text, s)
    decreases |text|
  {
    assert ("%" + s)[0] == '%' && ("%" + s)[1..] == s;
    assert s + [] == s;
    LikePlainPrefix(text, s, []);
    if text != [] {
      SuffixPattern(text[1..], s);
      assert EndsWith(text[1..], s) <==> (EndsWith(text, s) && text != s) by {
        if |s| <= |text| - 1 { assert text[1..][|text| - 1 - |s|..] == text[|text| - |s|..]; }
      }
    }
    if text == s { assert text[..|s|] == s && text[|s|..] == []; }
    if |s| <= |text| && text[..|s|] == s && text[|s|..] == [] { assert text == s; }
  }

  /** In particular '%' followed by ordinary characters matches any text ending in them. */
  lemma LikeAnySuffix(prefix: string, s: string)
    requires NoWild(s)
    ensures Like(prefix + s, "%" + s)
  {
    SuffixPattern(prefix + s, s);
    assert (prefix + s)[|prefix + s| - |s|..] == s;
  }

  predicate IsWild(c: char) { c == '%' || c == '_' }

  /** A piece of a split pattern: a '%', a '_', or a maximal run of ordinary characters. */
  datatype Token = AnyRun | AnyOne | Literal(chars: string)

  function Spelling(t: Token): string {
    match t
    case AnyRun => "%"
    case AnyOne => "_"
    case Literal(s) => s
  }

  function Render(toks: seq<Token>): string {
    if toks == [] then [] else Spelling(toks[0]) + Render(toks[1..])
  }

  /** A text with no '%' or '_' in it. */
  predicate NoWild(s: string) {
    forall k :: 0 <= k < |s| ==> !IsWild(s[k])
  }

  predicate PlainRun(s: string) {
    s != [] && NoWild(s)
  }

  predicate WellFormed(toks: seq<Token>) {
    forall k :: 0 <= k < |toks| && toks[k].Literal? ==> PlainRun(toks[k].chars)
  }

  /** Token-level matching, the relation the scanner works with. */
  predicate Matches(text: string, toks: seq<Token>)
    decreases |toks|, |text|
  {
    if toks == [] then text == []
    else match toks[0]
      case AnyRun => Matches(text, toks[1..]) || (text != [] && Matches(text[1..], toks))
      case AnyOne => text != [] && Matches(text[1..], toks[1..])
      case Literal(s) => |s| <= |text| && text[..|s|] == s && Matches(text[|s|..], toks[1..])
  }

  lemma {:induction false} RenderSnoc(toks: seq<Token>, t: Token)
    ensures Render(toks + [t]) == Render(toks) + Spelling(t)
  {
    if toks != [] {
      assert (toks + [t])[1..] == toks[1..] + [t];
      RenderSnoc(toks[1..], t);
    }
  }

  lemma {:induction false} LikePlainPrefix(text: string, s: string, rest: string)
    requires NoWild(s)
    ensures Like(text, s + rest) == (|s| <= |text| && text[..|s|] == s && Like(text[|s|..], rest))
  {
    if s != [] {
      assert (s + rest)[0] == s[0];
      assert (s + rest)[1..] == s[1..] + rest;
      if text != [] {
        LikePlainPrefix(text[1..], s[1..], rest);
        if |s| <= |text| {
          assert text[1..][..|s| - 1] == text[1..|s|];
          assert text[1..][|s| - 1..] == text[|s|..];
          assert text[..|s|] == [text[0]] + text[1..|s|];
          assert s == [s[0]] + s[1..];
        }
      }
    } else {
      assert s + rest == rest;
    }
  }

  /** Matching a well-formed token list is matching the pattern it spells. */
  lemma {:induction false} MatchesIsLike(text: string, toks: seq<Token>)
    requires WellFormed(toks)
    ensures Matches(text, toks) == Like(text, Render(toks))
    decreases |toks|, |text|
  {
    if toks != [] {
      var rest := Render(toks[1..]);
      assert WellFormed(toks[1..]) by {
        forall k | 0 <= k < |toks[1..]| && toks[1..][k].Literal? ensures PlainRun(toks[1..][k].chars) {
          assert toks[1..][k] == toks[k + 1];
        }
      }
      match toks[0]
      case AnyRun =>
        assert Render(toks) == "%" + rest;
        assert ("%" + rest)[1..] == rest;
        MatchesIsLike(text, toks[1..]);
        if text != [] { MatchesIsLike(text[1..], toks); }
      case AnyOne =>
        assert Render(toks) == "_" + rest;
        assert ("_" + rest)[1..] == rest;
        if text != [] { MatchesIsLike(text[1..], toks[1..]); }
      case Literal(s) =>
        assert PlainRun(toks[0].chars);
        LikePlainPrefix(text, s, rest);
        if |s| <= |text| { MatchesIsLike(text[|s|..], toks[1..]); }
    }
  }

  lemma WellFormedSnoc(toks: seq<Token>, t: Token)
    requires WellFormed(toks)
    requires t.Literal? ==> PlainRun(t.chars)
    ensures WellFormed(toks + [t])
  {
    forall k | 0 <= k < |toks + [t]| && (toks + [t])[k].Literal?
      ensures PlainRun((toks + [t])[k].chars)
    {
      if k < |toks| { assert (toks + [t])[k] == toks[k]; }
    }
  }

  /** The tokens so far followed by the pending run of ordinary characters, if any. */
  function Flushed(parts: seq<Token>, current: string): seq<Token> {
    if current == [] then parts else parts + [Literal(current)]
  }

  lemma FlushedSpells(parts: seq<Token>, current: string)
    requires WellFormed(parts) && NoWild(current)
    ensures Render(Flushed(parts, current)) == Render(parts) + current
    ensures WellFormed(Flushed(parts, current))
  {
    if current != [] {
      RenderSnoc(parts, Literal(current));
      WellFormedSnoc(parts, Literal(current));
    }
  }

  /** Reading one more pattern character keeps the split in step with the pattern. */
  lemma SplitStep(pattern: string, j: nat, parts: seq<Token>, current: string)
    requires j < |pattern| && WellFormed(parts) && NoWild(current)
    requires Render(parts) + current == pattern[..j]
    ensures IsWild(pattern[j]) ==>
      var t := if pattern[j] == '%' then AnyRun else AnyOne;
      Render(Flushed(parts, current) + [t]) == pattern[..j + 1] && WellFormed(Flushed(parts, current) + [t])
    ensures !IsWild(pattern[j]) ==>
      Render(parts) + (current + [pattern[j]]) == pattern[..j + 1] && NoWild(current + [pattern[j]])
  {
    assert pattern[..j + 1] == pattern[..j] + [pattern[j]];
    if IsWild(pattern[j]) {
      var t := if pattern[j] == '%' then AnyRun else AnyOne;
      FlushedSpells(parts, current);
      RenderSnoc(Flushed(parts, current), t);
      WellFormedSnoc(Flushed(parts, current), t);
    } else {
      assert Render(parts) + (current + [pattern[j]]) == (Render(parts) + current) + [pattern[j]];
    }
  }

  /** Splits a pattern into tokens, flushing the pending run of ordinary characters
      whenever a wildcard is met. */
  method SplitPattern(pattern: string) returns (parts: seq<Token>)
    ensures Render(parts) == pattern
    ensures WellFormed(parts)
  {
    parts := [];
    var current: string := [];
    for j := 0 to |pattern|
      invariant Render(parts) + current == pattern[..j]
      invariant WellFormed(parts) && NoWild(current)
    {
      SplitStep(pattern, j, parts, current);
      if pattern[j] == '%' || pattern[j] == '_' {
        if current != [] {
          parts := parts + [Literal(current)];
          current := [];
        }
        var t := if pattern[j] == '%' then AnyRun else AnyOne;
        parts := parts + [t];
      } else {
        current := current + [pattern[j]];
      }
    }
    FlushedSpells(parts, current);
    if current != [] {
      parts := parts + [Literal(current)];
    }
    assert pattern[..|pattern|] == pattern;
  }

  /** Some suffix of `text` starting at or after `k` matches `rest`: what a '%'
      placed before `rest` accepts. */
  ghost predicate Star(text: string, k: nat, rest: seq<Token>)
  {
    exists m :: k <= m <= |text| && Matches(text[m..], rest)
  }

  function Fixed(t: Token): nat {
    match t
    case AnyRun => 0
    case AnyOne => 1
    case Literal(s) => |s|
  }

  /** Number of characters consumed by the '%'-free tokens toks[a..b]. */
  function Width(toks: seq<Token>, a: nat, b: nat): nat
    requires a <= b <= |toks|
    decreases b - a
  {
    if a == b then 0 else Fixed(toks[a]) + Width(toks, a + 1, b)
  }

  predicate NoRun(toks: seq<Token>, a: nat, b: nat)
    requires a <= b <= |toks|
  {
    forall k :: a <= k < b ==> toks[k] != AnyRun
  }

  lemma {:induction false} WidthSnoc(toks: seq<Token>, a: nat, b: nat)
    requires a <= b < |toks|
    ensures Width(toks, a, b + 1) == Width(toks, a, b) + Fixed(toks[b])
    decreases b - a
  {
    if a < b { WidthSnoc(toks, a + 1, b); }
  }

  lemma SuffixHead(toks: seq<Token>, j: nat)
    requires j < |toks|
    ensures toks[j..][0] == toks[j] && toks[j..][1..] == toks[j + 1..]
  {
  }

  /** One step of `Matches` on the suffixes text[i..] and toks[j..], per kind of token. */
  lemma UnfoldRun(text: string, i: nat, toks: seq<Token>, j: nat)
    requires i <= |text| && j < |toks| && toks[j] == AnyRun
    ensures Matches(text[i..], toks[j..]) ==
      (Matches(text[i..], toks[j + 1..]) || (i < |text| && Matches(text[i + 1..], toks[j..])))
  {
    SuffixHead(toks, j);
    if i < |text| { assert text[i..][1..] == text[i + 1..]; }
  }

  lemma UnfoldOne(text: string, i: nat, toks: seq<Token>, j: nat)
    requires i <= |text| && j < |toks| && toks[j] == AnyOne
    ensures Matches(text[i..], toks[j..]) == (i < |text| && Matches(text[i + 1..], toks[j + 1..]))
  {
    SuffixHead(toks, j);
    if i < |text| { assert text[i..][1..] == text[i + 1..]; }
  }

  /** `s` occurs in `text` at position `i`. */
  predicate OccursAt(text: string, i: nat, s: string) {
    i + |s| <= |text| && text[i..i + |s|] == s
  }

  lemma UnfoldLiteral(text: string, i: nat, toks: seq<Token>, j: nat, s: string)
    requires i <= |text| && j < |toks| && toks[j] == Literal(s)
    ensures Matches(text[i..], toks[j..]) ==
      (OccursAt(text, i, s) && Matches(text[i + |s|..], toks[j + 1..]))
  {
    SuffixHead(toks, j);
    if i + |s| <= |text| {
      assert text[i..][..|s|] == text[i..i + |s|];
      assert text[i..][|s|..] == text[i + |s|..];
    }
  }

  lemma {:induction false} RunIsStar(text: string, k: nat, toks: seq<Token>, j: nat)
    requires k <= |text| && j < |toks| && toks[j] == AnyRun
    ensures Matches(text[k..], toks[j..]) == Star(text, k, toks[j + 1..])
    decreases |text| - k
  {
    UnfoldRun(text, k, toks, j);
    if k < |text| {
      RunIsStar(text, k + 1, toks, j);
      StarFrom(text, k, toks[j + 1..]);
    } else if Matches(text[k..], toks[j + 1..]) {
      assert Star(text, k, toks[j + 1..]);
    }
  }

  /** '%'-free tokens consume a fixed number of characters. */
  lemma {:induction false} Consume(text: string, m: nat, toks: seq<Token>, a: nat, b: nat)
    requires a <= b <= |toks| && NoRun(toks, a, b) && m <= |text|
    requires WellFormed(toks)
    requires Matches(text[m..], toks[a..])
    ensures m + Width(toks, a, b) <= |text|
    ensures Matches(text[m + Width(toks, a, b)..], toks[b..])
    decreases b - a
  {
    if a < b {
      if toks[a] == AnyOne { UnfoldOne(text, m, toks, a); } else { UnfoldLiteral(text, m, toks, a, toks[a].chars); }
      Consume(text, m + Fixed(toks[a]), toks, a + 1, b);
    }
  }

  lemma StarFrom(text: string, k: nat, rest: seq<Token>)
    requires k < |text|
    ensures Star(text, k, rest) == (Matches(text[k..], rest) || Star(text, k + 1, rest))
  {
    if Star(text, k, rest) && !Matches(text[k..], rest) {
      var m :| k <= m <= |text| && Matches(text[m..], rest);
      assert k + 1 <= m;
    }
  }

  /** Meeting a new '%' after a segment matched from the last '%' checkpoint:
      the old checkpoint can be forgotten (matching the segment as early as
      possible is never worse). */
  lemma NewCheckpoint(text: string, toks: seq<Token>, si: nat, sj: nat, i: nat, j: nat)
    requires WellFormed(toks)
    requires sj < j < |toks| && toks[j] == AnyRun && si <= i <= |text|
    requires NoRun(toks, sj + 1, j) && i == si + Width(toks, sj + 1, j)
    requires Matches(text[si..], toks[sj + 1..]) == Matches(text[i..], toks[j..])
    ensures Star(text, si, toks[sj + 1..]) == Star(text, i, toks[j + 1..])
  {
    if Star(text, si, toks[sj + 1..]) {
      LaterStart(text, toks, si, sj, i, j);
    }
    if Star(text, i, toks[j + 1..]) {
      RunIsStar(text, i, toks, j);
    }
  }

  /** A match of the segment starting later than `si` still leaves room for the '%'. */
  lemma LaterStart(text: string, toks: seq<Token>, si: nat, sj: nat, i: nat, j: nat)
    requires WellFormed(toks)
    requires sj < j < |toks| && toks[j] == AnyRun && si <= i <= |text|
    requires NoRun(toks, sj + 1, j) && i == si + Width(toks, sj + 1, j)
    requires Star(text, si, toks[sj + 1..])
    ensures Star(text, i, toks[j + 1..])
  {
    var m :| si <= m <= |text| && Matches(text[m..], toks[sj + 1..]);
    Consume(text, m, toks, sj + 1, j);
    var e := m + Width(toks, sj + 1, j);
    RunIsStar(text, e, toks, j);
    var m' :| e <= m' <= |text| && Matches(text[m'..], toks[j + 1..]);
    assert i <= m';
  }

  /** When the text is used up, the checkpoint offers no alternative: a later
      start would leave too few characters for the segment. */
  lemma CheckpointAtEnd(text: string, toks: seq<Token>, si: nat, sj: nat, j: nat)
    requires WellFormed(toks)
    requires sj < j <= |toks| && si <= |text|
    requires NoRun(toks, sj + 1, j) && |text| == si + Width(toks, sj + 1, j)
    requires Matches(text[si..], toks[sj + 1..]) == Matches(text[|text|..], toks[j..])
    ensures Star(text, si, toks[sj + 1..]) == Matches(text[|text|..], toks[j..])
  {
    if Star(text, si, toks[sj + 1..]) {
      var m :| si <= m <= |text| && Matches(text[m..], toks[sj + 1..]);
      Consume(text, m, toks, sj + 1, j);
      assert m == si;
    }
  }

  /** The scanner's position: text index `i`, token index `j`, and, once a '%' has
      been passed, the checkpoint (`si`, `sj`) to backtrack to. */
  datatype Cursor = Cursor(i: nat, j: nat, hasStar: bool, si: nat, sj: nat)

  /** What the scanner knows at the head of its loop: without a checkpoint, the
      remaining text must match the remaining tokens; with one at (si, sj), the whole
      match is decided by `Star` from the checkpoint, and the tokens since the
      checkpoint have consumed exactly text[si..i]. */
  ghost predicate ScanInv(text: string, toks: seq<Token>, c: Cursor)
  {
    && c.i <= |text| && c.j <= |toks|
    && (if c.hasStar then Anchored(text, toks, c.i, c.j, c.si, c.sj) else Plain(text, toks, c.i, c.j))
  }

  ghost predicate Plain(text: string, toks: seq<Token>, i: nat, j: nat)
    requires i <= |text| && j <= |toks|
  {
    Matches(text, toks) == Matches(text[i..], toks[j..])
  }

  ghost predicate Anchored(text: string, toks: seq<Token>, i: nat, j: nat, si: nat, sj: nat)
    requires i <= |text| && j <= |toks|
  {
    && sj < j && toks[sj] == AnyRun && si <= i
    && NoRun(toks, sj + 1, j) && i == si + Width(toks, sj + 1, j)
    && Matches(text, toks) == Star(text, si, toks[sj + 1..])
    && Matches(text[si..], toks[sj + 1..]) == Matches(text[i..], toks[j..])
  }

  /** A move of the scanner goes further on: it either moves the checkpoint forward,
      or keeps it and advances in the text or in the tokens, or sets the first
      checkpoint where it stands. */
  predicate Progress(c: Cursor, c': Cursor) {
    || (c'.hasStar && c.hasStar && c'.si > c.si)
    || (c'.hasStar == c.hasStar && c'.si == c.si && (c'.i > c.i || (c'.i == c.i && c'.j > c.j)))
    || (c'.hasStar && !c.hasStar && c'.si == c'.i == c.i && c'.j > c.j)
  }

  /** A legal next state of the scanner. */
  ghost predicate Next(text: string, toks: seq<Token>, c: Cursor, c': Cursor) {
    ScanInv(text, toks, c') && (c'.hasStar ==> c'.si <= c'.i) && Progress(c, c')
  }

  /** Passing a '%'-free token of width `w` keeps the invariant. */
  lemma PassFixed(text: string, toks: seq<Token>, c: Cursor, w: nat)
    requires ScanInv(text, toks, c)
    requires c.j < |toks| && toks[c.j] != AnyRun && w == Fixed(toks[c.j]) && c.i + w <= |text|
    requires Matches(text[c.i..], toks[c.j..]) == Matches(text[c.i + w..], toks[c.j + 1..])
    ensures ScanInv(text, toks, Cursor(c.i + w, c.j + 1, c.hasStar, c.si, c.sj))
  {
    if c.hasStar {
      AnchoredPass(text, toks, c.i, c.j, c.si, c.sj, w);
    } else {
      PlainPass(text, toks, c.i, c.j, w);
    }
  }

  lemma PlainPass(text: string, toks: seq<Token>, i: nat, j: nat, w: nat)
    requires i + w <= |text| && j < |toks| && Plain(text, toks, i, j)
    requires Matches(text[i..], toks[j..]) == Matches(text[i + w..], toks[j + 1..])
    ensures Plain(text, toks, i + w, j + 1)
  {
  }

  lemma AnchoredPass(text: string, toks: seq<Token>, i: nat, j: nat, si: nat, sj: nat, w: nat)
    requires i + w <= |text| && j < |toks| && Anchored(text, toks, i, j, si, sj)
    requires toks[j] != AnyRun && w == Fixed(toks[j])
    requires Matches(text[i..], toks[j..]) == Matches(text[i + w..], toks[j + 1..])
    ensures Anchored(text, toks, i + w, j + 1, si, sj)
  {
    WidthSnoc(toks, sj + 1, j);
    assert NoRun(toks, sj + 1, j + 1);
  }

  lemma StepOne(text: string, toks: seq<Token>, c: Cursor)
    requires ScanInv(text, toks, c)
    requires c.i < |text| && c.j < |toks| && toks[c.j] == AnyOne
    ensures Next(text, toks, c, c.(i := c.i + 1, j := c.j + 1))
  {
    UnfoldOne(text, c.i, toks, c.j);
    PassFixed(text, toks, c, 1);
  }

  lemma StepLiteral(text: string, toks: seq<Token>, c: Cursor, lit: string)
    requires ScanInv(text, toks, c)
    requires c.j < |toks| && toks[c.j] == Literal(lit) && OccursAt(text, c.i, lit)
    ensures Next(text, toks, c, c.(i := c.i + |lit|, j := c.j + 1))
  {
    UnfoldLiteral(text, c.i, toks, c.j, lit);
    PassFixed(text, toks, c, |lit|);
  }

  lemma StepRun(text: string, toks: seq<Token>, c: Cursor)
    requires WellFormed(toks)
    requires ScanInv(text, toks, c)
    requires c.j < |toks| && toks[c.j] == AnyRun
    ensures Next(text, toks, c, Cursor(c.i, c.j + 1, true, c.i, c.j))
  {
    if c.hasStar { NewCheckpoint(text, toks, c.si, c.sj, c.i, c.j); } else { RunIsStar(text, c.i, toks, c.j); }
  }

  lemma StepBack(text: string, toks: seq<Token>, c: Cursor)
    requires ScanInv(text, toks, c) && c.hasStar
    requires c.i < |text| && !Matches(text[c.i..], toks[c.j..])
    ensures Next(text, toks, c, c.(i := c.si + 1, j := c.sj + 1, si := c.si + 1))
  {
    StarFrom(text, c.si, toks[c.sj + 1..]);
  }

  lemma StepFail(text: string, toks: seq<Token>, c: Cursor)
    requires ScanInv(text, toks, c) && !c.hasStar
    requires !Matches(text[c.i..], toks[c.j..])
    ensures !Matches(text, toks)
  {
  }

  /** The matcher used by the `$like` operator: splits the pattern into tokens and
      scans the text against them. */
  method WildcardMatch(text: string, pattern: string) returns (r: bool)
    ensures r == Like(text, pattern)
  {
    if pattern == [] {
      return text == [];
    }
    var parts := SplitPattern(pattern);
    MatchesIsLike(text, parts);
    r := Scan(text, parts);
  }

  /** One move of the scanner: either it decides the match (`done`), or it reaches a
      legal next state. */
  method Advance(text: string, parts: seq<Token>, c: Cursor) returns (done: bool, r: bool, c': Cursor)
    requires WellFormed(parts) && c.i < |text|
    requires ScanInv(text, parts, c)
    ensures done ==> r == Matches(text, parts)
    ensures !done ==> Next(text, parts, c, c')
  {
    done, r, c' := false, false, c;
    if c.j < |parts| {
      match parts[c.j]
      case AnyOne =>
        StepOne(text, parts, c);
        c' := c.(i := c.i + 1, j := c.j + 1);
      case AnyRun =>
        StepRun(text, parts, c);
        c' := Cursor(c.i, c.j + 1, true, c.i, c.j);
      case Literal(lit) =>
        if OccursAt(text, c.i, lit) {
          StepLiteral(text, parts, c, lit);
          c' := c.(i := c.i + |lit|, j := c.j + 1);
        } else {
          UnfoldLiteral(text, c.i, parts, c.j, lit);
          if c.hasStar {
            StepBack(text, parts, c);
            c' := c.(i := c.si + 1, j := c.sj + 1, si := c.si + 1);
          } else {
            StepFail(text, parts, c);
            done := true;
          }
        }
    } else {
      assert parts[c.j..] == [];
      if c.hasStar {
        StepBack(text, parts, c);
        c' := c.(i := c.si + 1, j := c.sj + 1, si := c.si + 1);
      } else {
        done := true;
      }
    }
  }

  /** The scanning half of the matcher: walks text and tokens in lockstep and, on a
      mismatch, backtracks to the most recent '%' checkpoint one character further on. */
  method Scan(text: string, parts: seq<Token>) returns (r: bool)
    requires WellFormed(parts)
    ensures r == Matches(text, parts)
  {
    assert text[0..] == text && parts[0..] == parts;
    var c := Cursor(0, 0, false, 0, 0);
    while c.i < |text|
      invariant ScanInv(text, parts, c) && (c.hasStar ==> c.si <= c.i)
      decreases |text| - (if c.hasStar then c.si else 0), |text| - c.i, |parts| - c.j
    {
      var done;
      done, r, c := Advance(text, parts, c);
      if done {
        return;
      }
    }
    r := Finish(text, parts, c);
  }

  /** Once the text is used up, only '%' tokens may remain. */
  method Finish(text: string, parts: seq<Token>, c: Cursor) returns (r: bool)
    requires WellFormed(parts)
    requires ScanInv(text, parts, c) && c.i == |text|
    ensures r == Matches(text, parts)
  {
    var j := c.j;
    if c.hasStar { CheckpointAtEnd(text, parts, c.si, c.sj, j); }
    while j < |parts| && parts[j] == AnyRun
      invariant j <= |parts|
      invariant Matches(text, parts) == Matches(text[|text|..], parts[j..])
    {
      UnfoldRun(text, |text|, parts, j);
      j := j + 1;
    }
    if j < |parts| {
      if parts[j] == AnyOne { UnfoldOne(text, |text|, parts, j); } else { UnfoldLiteral(text, |text|, parts, j, parts[j].chars); }
    }
    return j >= |parts|;
  }

  // ---------------------------------------------------------------------------
  // The character-level matcher, as written. Nothing calls it; it compares the
  // pattern character with the text character before looking for '%', so a '%' in
  // the text is taken as a literal match for a '%' in the pattern.
  // ---------------------------------------------------------------------------

  /** Where the character-level scan from cursor `c` ends up: the cursor holds the
      text position, the pattern position, and the last '%' checkpoint. */
  function CharScan(text: string, pattern: string, c: Cursor): bool
    requires c.i <= |text| && c.j <= |pattern|
    requires c.hasStar ==> c.si <= c.i && c.sj < |pattern|
    decreases if c.hasStar then |text| - c.si else |text| + 1, |text| - c.i, |pattern| - c.j
  {
    if c.i == |text| then TrailingRuns(pattern, c.j)
    else if c.j < |pattern| && (pattern[c.j] == text[c.i] || pattern[c.j] == '_') then
      CharScan(text, pattern, c.(i := c.i + 1, j := c.j + 1))
    else if c.j < |pattern| && pattern[c.j] == '%' then
      CharScan(text, pattern, Cursor(c.i, c.j + 1, true, c.i, c.j))
    else if c.hasStar then
      CharScan(text, pattern, c.(i := c.si + 1, j := c.sj + 1, si := c.si + 1))
    else false
  }

  /** Skips the '%' characters at `j` and accepts when that reaches the end. */
  function TrailingRuns(pattern: string, j: nat): (r: bool)
    requires j <= |pattern|
    ensures r <==> forall k :: j <= k < |pattern| ==> pattern[k] == '%'
    decreases |pattern| - j
  {
    if j < |pattern| && pattern[j] == '%' then TrailingRuns(pattern, j + 1) else j == |pattern|
  }

  /** The character-level matcher: one loop over the text with a single '%'
      checkpoint, then a loop over trailing '%' characters. */
  method WildcardMatchAsWritten(text: string, pattern: string) returns (r: bool)
    ensures r == CharScan(text, pattern, Cursor(0, 0, false, 0, 0))
  {
    var c := Cursor(0, 0, false, 0, 0);
    while c.i < |text|
      invariant c.i <= |text| && c.j <= |pattern| && (c.hasStar ==> c.si <= c.i && c.sj < |pattern|)
      invariant CharScan(text, pattern, Cursor(0, 0, false, 0, 0)) == CharScan(text, pattern, c)
      decreases if c.hasStar then |text| - c.si else |text| + 1, |text| - c.i, |pattern| - c.j
    {
      if c.j < |pattern| && (pattern[c.j] == text[c.i] || pattern[c.j] == '_') {
        c := c.(i := c.i + 1, j := c.j + 1);
      } else if c.j < |pattern| && pattern[c.j] == '%' {
        c := Cursor(c.i, c.j + 1, true, c.i, c.j);
      } else if c.hasStar {
        c := c.(i := c.si + 1, j := c.sj + 1, si := c.si + 1);
      } else {
        return false;
      }
    }
    var j := c.j;
    while j < |pattern| && pattern[j] == '%'
      invariant c.j <= j <= |pattern| && TrailingRuns(pattern, c.j) == TrailingRuns(pattern, j)
    {
      j := j + 1;
    }
    return j == |pattern|;
  }

  /** The text "%ab" ends with "b", so the pattern "%b" matches it; the
      character-level matcher pairs the two '%' characters and then fails on 'a'. */
  lemma PercentInTextExample()
    ensures Like("%ab", "%b")
    ensures !CharScan("%ab", "%b", Cursor(0, 0, false, 0, 0))
  {
    assert NoWild("b");
    SuffixPattern("%ab", "b");
    assert "%ab"[|"%ab"| - 1..] == "b";
    assert !CharScan("%ab", "%b", Cursor(1, 1, false, 0, 0));
  }
}

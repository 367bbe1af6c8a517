/** `get_morphological_labels_from`: splits each pre-tokenised text into its
    `surface/tag/extra ` groups with the lazy pattern `(.+?/.+?/.+?) ` and keeps
    the surface and the tag of every group. The regular expression is modelled
    exactly: `.` is any character but a newline, `findall` scans left to right,
    and a failed attempt moves on by one character. */
module Labels {
  import opened Tables

  /** The first index `r >= i` at which `s` holds `c`, or `|s|` when there is none. */
  function FindFrom(s: string, c: char, i: nat): (r: nat)
    ensures r <= |s|
    ensures i <= |s| ==> i <= r
    ensures r < |s| ==> i <= r && s[r] == c
    ensures forall k | i <= k < r :: s[k] != c
    decreases |s| - i
  {
    if i >= |s| then |s| else if s[i] == c then i else FindFrom(s, c, i + 1)
  }

  /** `s` starts with a match of `(.+?/.+?/.+?) ` whose two slashes are at `a`
      and `b` and whose closing space is at `c`: three non-empty fields, no newline. */
  ghost predicate IsMatch(s: string, a: nat, b: nat, c: nat)
  {
    0 < a && a + 1 < b && b + 1 < c < |s| &&
    s[a] == '/' && s[b] == '/' && s[c] == ' ' && '\n' !in s[..c]
  }

  /** Where the match at the start of `s` ends: lazy quantifiers take the first
      slash, then the next slash that leaves the middle field non-empty, then the
      first space after a non-empty third field, which is the shortest match. */
  function MatchEnd(s: string): (r: Option<nat>)
    ensures r.Some? ==> exists a: nat, b: nat :: IsMatch(s, a, b, r.value)
    ensures r.None? ==> forall a: nat, b: nat, c: nat :: !IsMatch(s, a, b, c)
    ensures r.Some? ==> forall a: nat, b: nat, c: nat :: IsMatch(s, a, b, c) ==> r.value <= c
  {
    var a := FindFrom(s, '/', 1);
    var b := FindFrom(s, '/', a + 2);
    var c := FindFrom(s, ' ', b + 2);
    assert forall a': nat, b': nat, c': nat :: IsMatch(s, a', b', c') ==>
        a <= a' && b <= b' && c <= c' && c' < |s| && '\n' !in s[..c] by {
      forall a': nat, b': nat, c': nat | IsMatch(s, a', b', c')
        ensures a <= a' && b <= b' && c <= c' && c' < |s| && '\n' !in s[..c]
      {
        assert s[a'] == '/';
        assert b <= b' by { assert s[b'] == '/'; }
        assert c <= c' by { assert s[c'] == ' '; }
        assert s[..c] == s[..c'][..c];
      }
    }
    if a < |s| && b < |s| && c < |s| && '\n' !in s[..c] then
      assert IsMatch(s, a, b, c);
      Some(c)
    else
      None
  }

  /** The groups `tag_pattern.findall(text)` returns: each match without its space.
      A group and its space take at least six characters (`x/y/z `). */
  function FindAll(text: string): (groups: seq<string>)
    ensures 6 * |groups| <= |text|
    decreases |text|
  {
    if text == [] then []
    else
      match MatchEnd(text)
      case Some(c) => [text[..c]] + FindAll(text[c + 1..])
      case None => FindAll(text[1..])
  }

  /** Every group `findall` returns holds at least two slashes, so the split
      of line 23 always yields a surface and a tag. */
  lemma {:induction false} FindAllSlashes(text: string)
    ensures forall m | 0 <= m < |FindAll(text)| :: SlashesAtLeastTwo(FindAll(text)[m])
    decreases |text|
  {
    if text != [] {
      match MatchEnd(text)
      case Some(c) =>
        MatchHasSlashes(text, c);
        var rest := FindAll(text[c + 1..]);
        FindAllSlashes(text[c + 1..]);
        assert FindAll(text) == [text[..c]] + rest;
        forall m | 0 <= m < |FindAll(text)| ensures SlashesAtLeastTwo(FindAll(text)[m]) {
          if m > 0 { assert FindAll(text)[m] == rest[m - 1]; }
        }
      case None =>
        FindAllSlashes(text[1..]);
    }
  }

  lemma MatchHasSlashes(text: string, c: nat)
    requires MatchEnd(text) == Some(c)
    ensures c <= |text| && SlashesAtLeastTwo(text[..c])
  {
    var a: nat, b: nat :| IsMatch(text, a, b, c);
    assert text[..c][a] == '/' && text[..c][b] == '/';
  }

  ghost predicate SlashesAtLeastTwo(g: string)
  {
    exists i, j :: 0 <= i < j < |g| && g[i] == '/' && g[j] == '/'
  }

  /** `token, tag = group.split("/")[:2]`: the text before the first slash and
      the text between the first and the second. */
  function SplitGroup(g: string): (r: (string, string))
    requires SlashesAtLeastTwo(g)
    ensures '/' !in r.0 && '/' !in r.1
    ensures r.0 + ['/'] + r.1 + ['/'] <= g
  {
    var first := FindFrom(g, '/', 0);
    var second := FindFrom(g, '/', first + 1);
    assert second < |g| by {
      var i, j :| 0 <= i < j < |g| && g[i] == '/' && g[j] == '/';
      assert first <= i;
      assert second <= j;
    }
    assert g[..second + 1] == g[..first] + ['/'] + g[first + 1..second] + ['/'];
    (g[..first], g[first + 1..second])
  }

  /** The token list the parser builds for one text. */
  function SurfacesOf(text: string): (ws: seq<string>)
    ensures |ws| == |FindAll(text)|
  {
    var groups := FindAll(text);
    FindAllSlashes(text);
    seq(|groups|, m requires 0 <= m < |groups| => SplitGroup(groups[m]).0)
  }

  /** The tag list the parser builds for one text. */
  function TagsOf(text: string): (ts: seq<string>)
    ensures |ts| == |FindAll(text)|
  {
    var groups := FindAll(text);
    FindAllSlashes(text);
    seq(|groups|, m requires 0 <= m < |groups| => SplitGroup(groups[m]).1)
  }

  function AllTags(texts: seq<string>): (tags: seq<seq<string>>)
    ensures |tags| == |texts|
  {
    seq(|texts|, j requires 0 <= j < |texts| => TagsOf(texts[j]))
  }

  function AllSurfaces(texts: seq<string>): (tokens: seq<seq<string>>)
    ensures |tokens| == |texts|
  {
    seq(|texts|, j requires 0 <= j < |texts| => SurfacesOf(texts[j]))
  }

  /** One tag list and one token list per text, equally long, holding the
      tag and the surface of every group the pattern finds, in order. */
  method MorphologicalLabels(texts: seq<string>) returns (tags: seq<seq<string>>, tokens: seq<seq<string>>)
    ensures |tags| == |texts| && |tokens| == |texts|
    ensures forall j | 0 <= j < |texts| :: |tags[j]| == |tokens[j]| == |FindAll(texts[j])|
    ensures tags == AllTags(texts) && tokens == AllSurfaces(texts)
  {
    tags, tokens := [], [];
    for j := 0 to |texts|
      invariant |tags| == j && |tokens| == j
      invariant forall j' | 0 <= j' < j :: tags[j'] == TagsOf(texts[j']) && tokens[j'] == SurfacesOf(texts[j'])
    {
      var textTags, textTokens := ParseText(texts[j]);
      tags := tags + [textTags];
      tokens := tokens + [textTokens];
    }
  }

  /** The inner loop over the groups of one text. */
  method ParseText(text: string) returns (textTags: seq<string>, textTokens: seq<string>)
    ensures textTags == TagsOf(text) && textTokens == SurfacesOf(text)
  {
    var groups := FindAll(text);
    FindAllSlashes(text);
    textTags, textTokens := [], [];
    for m := 0 to |groups|
      invariant |textTags| == m && |textTokens| == m
      invariant forall m' | 0 <= m' < m :: textTags[m'] == SplitGroup(groups[m']).1
      invariant forall m' | 0 <= m' < m :: textTokens[m'] == SplitGroup(groups[m']).0
    {
      var (token, tag) := SplitGroup(groups[m]);
      textTags := textTags + [tag];
      textTokens := textTokens + [token];
    }
    assert textTags == TagsOf(text) by {
      forall m | 0 <= m < |groups| ensures textTags[m] == TagsOf(text)[m] { }
    }
    assert textTokens == SurfacesOf(text) by {
      forall m | 0 <= m < |groups| ensures textTokens[m] == SurfacesOf(text)[m] { }
    }
  }

  /** A well-formed group `surface/tag/extra`: three non-empty fields free of
      slashes, spaces and newlines. */
  datatype Group = Group(surface: string, tag: string, extra: string)

  predicate PlainField(f: string)
  {
    |f| >= 1 && '/' !in f && ' ' !in f && '\n' !in f
  }

  predicate WellFormed(g: Group)
  {
    PlainField(g.surface) && PlainField(g.tag) && PlainField(g.extra)
  }

  function Inner(g: Group): string
  {
    g.surface + ['/'] + g.tag + ['/'] + g.extra
  }

  /** A text written as the tagger writes it: every group followed by a space. */
  function Render(gs: seq<Group>): string
  {
    if gs == [] then [] else Inner(gs[0]) + [' '] + Render(gs[1..])
  }

  /** The scan for `c` from `i` stops at `j` when `j` is the first `c` from `i` on. */
  lemma FindFromStopsAt(s: string, c: char, i: nat, j: nat)
    requires i <= j < |s| && s[j] == c
    requires forall k | i <= k < j :: s[k] != c
    ensures FindFrom(s, c, i) == j
  {
  }

  lemma MatchesOneGroup(g: Group, rest: string)
    requires WellFormed(g)
    ensures MatchEnd(Inner(g) + [' '] + rest) == Some(|Inner(g)|)
  {
    var x, y, z := g.surface, g.tag, g.extra;
    var s := Inner(g) + [' '] + rest;
    var a, b, c := |x|, |x| + 1 + |y|, |x| + 2 + |y| + |z|;
    GroupLayout(g, rest);
    FindFromStopsAt(s, '/', 1, a);
    FindFromStopsAt(s, '/', a + 2, b);
    FindFromStopsAt(s, ' ', b + 2, c);
  }

  /** Where the slashes, the space and the newlines of a group written by the
      tagger are. */
  lemma GroupLayout(g: Group, rest: string)
    requires WellFormed(g)
    ensures var s, a, b := Inner(g) + [' '] + rest, |g.surface|, |g.surface| + 1 + |g.tag|;
      var c := b + 1 + |g.extra|;
      && c == |Inner(g)| && c < |s|
      && s[a] == '/' && s[b] == '/' && s[c] == ' '
      && (forall k | 0 <= k < a :: s[k] != '/')
      && (forall k | a < k < b :: s[k] != '/')
      && (forall k | b < k < c :: s[k] != ' ')
      && '\n' !in s[..c]
  {
    var x, y, z := g.surface, g.tag, g.extra;
    var s := Inner(g) + [' '] + rest;
    var a, b, c := |x|, |x| + 1 + |y|, |x| + 2 + |y| + |z|;
    assert Inner(g) == s[..c];
    assert forall k | 0 <= k < a :: s[k] == x[k];
    assert forall k | a < k < b :: s[k] == y[k - a - 1];
    assert forall k | b < k < c :: s[k] == z[k - b - 1];
    assert '\n' !in s[..c] by {
      forall k | 0 <= k < c ensures s[k] != '\n' {
        if k < a { assert s[k] in x; } else if a < k < b { assert s[k] in y; } else if b < k { assert s[k] in z; }
      }
    }
  }

  lemma {:induction false} FindAllGroupThenRest(g: Group, rest: string)
    requires WellFormed(g)
    ensures FindAll(Inner(g) + [' '] + rest) == [Inner(g)] + FindAll(rest)
  {
    var s := Inner(g) + [' '] + rest;
    MatchesOneGroup(g, rest);
    assert s[..|Inner(g)|] == Inner(g);
    assert s[|Inner(g)| + 1..] == rest;
  }

  lemma SplitInner(g: Group)
    requires WellFormed(g)
    ensures SlashesAtLeastTwo(Inner(g)) && SplitGroup(Inner(g)) == (g.surface, g.tag)
  {
    var x, y := g.surface, g.tag;
    var s := Inner(g);
    var a, b := |x|, |x| + 1 + |y|;
    assert forall k | 0 <= k < a :: s[k] == x[k];
    assert forall k | a < k < b :: s[k] == y[k - a - 1];
    assert s[a] == '/' && s[b] == '/';
    FindFromStopsAt(s, '/', 0, a);
    FindFromStopsAt(s, '/', a + 1, b);
    assert s[..a] == x && s[a + 1..b] == y;
  }

  /** The groups of a rendered text, without their spaces. */
  function Inners(gs: seq<Group>): (r: seq<string>)
    ensures |r| == |gs|
    ensures forall m | 0 <= m < |gs| :: r[m] == Inner(gs[m])
  {
    if gs == [] then [] else [Inner(gs[0])] + Inners(gs[1..])
  }

  lemma {:induction false} FindAllRender(gs: seq<Group>, tail: string)
    requires forall g | g in gs :: WellFormed(g)
    ensures FindAll(Render(gs) + tail) == Inners(gs) + FindAll(tail)
  {
    if gs != [] {
      forall h | h in gs[1..] ensures WellFormed(h) { assert h in gs; }
      FindAllRender(gs[1..], tail);
      FindAllRenderStep(gs[0], gs[1..], tail);
      assert [gs[0]] + gs[1..] == gs;
    } else {
      assert Render(gs) + tail == tail;
      assert Inners(gs) + FindAll(tail) == FindAll(tail);
    }
  }

  /** One more group in front adds its match in front. */
  lemma FindAllRenderStep(g: Group, rest: seq<Group>, tail: string)
    requires WellFormed(g)
    requires FindAll(Render(rest) + tail) == Inners(rest) + FindAll(tail)
    ensures FindAll(Render([g] + rest) + tail) == Inners([g] + rest) + FindAll(tail)
  {
    RenderCons(g, rest, tail);
    FindAllGroupThenRest(g, Render(rest) + tail);
    InnersCons(g, rest, FindAll(tail));
  }

  lemma RenderCons(g: Group, rest: seq<Group>, tail: string)
    ensures Render([g] + rest) + tail == Inner(g) + [' '] + (Render(rest) + tail)
  {
    assert ([g] + rest)[1..] == rest;
  }

  lemma InnersCons(g: Group, rest: seq<Group>, found: seq<string>)
    ensures Inners([g] + rest) + found == [Inner(g)] + (Inners(rest) + found)
  {
    assert ([g] + rest)[1..] == rest;
  }

  /** Without a space the pattern never matches. */
  lemma {:induction false} NoSpaceNoGroups(s: string)
    requires ' ' !in s
    ensures FindAll(s) == []
    decreases |s|
  {
    if s != [] {
      var a := FindFrom(s, '/', 1);
      var b := FindFrom(s, '/', a + 2);
      assert FindFrom(s, ' ', b + 2) == |s|;
      NoSpaceNoGroups(s[1..]);
    }
  }

  lemma FindAllRendered(gs: seq<Group>)
    requires forall g | g in gs :: WellFormed(g)
    ensures FindAll(Render(gs)) == Inners(gs)
  {
    FindAllRender(gs, []);
    assert Render(gs) + [] == Render(gs);
    assert FindAll([]) == [];
    assert Inners(gs) + [] == Inners(gs);
  }

  /** A text written from well-formed groups, each followed by a space, parses
      back to exactly those surfaces and tags, in order. */
  lemma ParseRendered(gs: seq<Group>)
    requires forall g | g in gs :: WellFormed(g)
    ensures |SurfacesOf(Render(gs))| == |gs| && |TagsOf(Render(gs))| == |gs|
    ensures forall m | 0 <= m < |gs| :: SurfacesOf(Render(gs))[m] == gs[m].surface
    ensures forall m | 0 <= m < |gs| :: TagsOf(Render(gs))[m] == gs[m].tag
  {
    var text := Render(gs);
    FindAllRendered(gs);
    forall m | 0 <= m < |gs|
      ensures SurfacesOf(text)[m] == gs[m].surface && TagsOf(text)[m] == gs[m].tag
    {
      SplitInner(gs[m]);
      assert FindAll(text)[m] == Inner(gs[m]);
    }
  }

  /** A last group that is not followed by a space is not recognised. */
  lemma LastGroupNeedsSpace(gs: seq<Group>, last: Group)
    requires forall g | g in gs :: WellFormed(g)
    requires WellFormed(last)
    ensures FindAll(Render(gs) + Inner(last)) == FindAll(Render(gs))
  {
    FindAllRender(gs, Inner(last));
    FindAllRender(gs, []);
    assert Render(gs) + [] == Render(gs);
    NoSpaceNoGroups(Inner(last));
    assert FindAll([]) == [];
  }
}

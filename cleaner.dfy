/**
 * `cleanMarkdown` (docs/build-docs.js:17-36): seven `replace` calls that
 * delete known regions from the fetched Markdown. The frontmatter, style,
 * layout, article and header rules have no `g` flag and so remove at most
 * one region each; the two divider rules are global.
 */
module Cleaner {
  import opened Text
  import opened Scanner

  /** `/^---[\s\S]*?---\n/`: the text starts with `---`, and the match runs through the first `---\n` after those three characters. */
  function FrontmatterEnd(t: string): Option<nat> {
    if StartsWith(t, "---") then
      match IndexOf(t, "---\n", 3)
      case None => None
      case Some(i) => Some(i + 4)
    else None
  }

  /** The first rule: the frontmatter, when there is one, is cut off the front of the text. */
  function RemoveFrontmatter(t: string): string {
    match FrontmatterEnd(t)
    case None => t
    case Some(e) => t[e..]
  }

  /** Frontmatter from `---` through the first `---\n` that follows it is removed, and nothing else. */
  lemma FrontmatterRemovedExactly(t: string, i: nat)
    requires StartsWith(t, "---") && 3 <= i && Occurs(t, "---\n", i)
    requires forall j :: 3 <= j < i ==> !Occurs(t, "---\n", j)
    ensures RemoveFrontmatter(t) == t[i + 4..]
  {
    assert IndexOf(t, "---\n", 3) == Some(i);
  }

  /** A text that does not start with `---`, or has no `---\n` after the opening one, keeps its head. */
  lemma FrontmatterKeptOtherwise(t: string)
    requires !StartsWith(t, "---") || forall j :: 3 <= j ==> !Occurs(t, "---\n", j)
    ensures RemoveFrontmatter(t) == t
  {
  }

  /**
   * `open[\s\S]*?close` tried at the start of `u`: the block from `open`
   * through the first `close` that begins after it (`DelimitedAtSpec`).
   * The block is deleted.
   */
  function DelimitedAt(u: string, open: string, close: string): Option<(nat, string)> {
    if StartsWith(u, open) then
      match IndexOf(u, close, |open|)
      case None => None
      case Some(k) => Some((k + |close|, ""))
    else None
  }

  /** `u[..n]` is `open`, lazily any text, then `close`: `close` ends at `n` and starts nowhere earlier after `open`. */
  predicate IsDelimited(u: string, open: string, close: string, n: nat) {
    StartsWith(u, open) && |open| + |close| <= n && Occurs(u, close, n - |close|)
    && forall j :: |open| <= j < n - |close| ==> !Occurs(u, close, j)
  }

  /** The block the lazy pattern matches is found, and nothing is found when there is none. */
  lemma DelimitedAtSpec(u: string, open: string, close: string)
    ensures DelimitedAt(u, open, close).Some? ==>
      var (n, r) := DelimitedAt(u, open, close).value;
      IsDelimited(u, open, close, n) && n <= |u| && r == []
    ensures DelimitedAt(u, open, close).None? ==> forall n :: !IsDelimited(u, open, close, n)
  {
    if StartsWith(u, open) && IndexOf(u, close, |open|).None? {
      forall n: nat ensures !IsDelimited(u, open, close, n) {
      }
    }
  }

  /** A literal pattern tried at the start of `u`; the literal is deleted. */
  function LiteralAt(u: string, lit: string): (r: Option<(nat, string)>)
    ensures r.Some? <==> StartsWith(u, lit)
    ensures r.Some? ==> r.value == (|lit|, "")
  {
    if StartsWith(u, lit) then Some((|lit|, "")) else None
  }

  /** `/<style>[\s\S]*?<\/style>\n/` */
  function StyleAt(u: string): Option<(nat, string)> {
    DelimitedAt(u, "<style>", "</style>\n")
  }

  /** `/<div class="tm-layout">[\s\S]*?<\/aside>\n/m` (the `m` flag changes nothing: the pattern has no `^` or `$`). */
  function LayoutAt(u: string): Option<(nat, string)> {
    DelimitedAt(u, "<div class=\"tm-layout\">", "</aside>\n")
  }

  /** `/<div class="tm-article" markdown="1">\n/` */
  function ArticleAt(u: string): Option<(nat, string)> {
    LiteralAt(u, "<div class=\"tm-article\" markdown=\"1\">\n")
  }

  /** `/<div class="starc-header">[\s\S]*?<\/div>\n/` */
  function HeaderAt(u: string): Option<(nat, string)> {
    DelimitedAt(u, "<div class=\"starc-header\">", "</div>\n")
  }

  /**
   * `/---\s*\n(\s*<div class="starc-part-header">)/` tried at the start of
   * `u`, replaced by `$1`. Everything between `---` and the part header is
   * white space, so it is the whole run of white space after `---`; the
   * greedy first `\s*` gives back characters only down to the run's last
   * line feed, and the group keeps what follows that line feed.
   */
  function DividerBeforeAt(u: string): Option<(nat, string)> {
    if !StartsWith(u, "---") then None
    else
      var w := Span(u[3..], IsSpace);
      match LastFindChar(u[3..3 + w], '\n')
      case None => None
      case Some(l) =>
        if Occurs(u, PartHeader, 3 + w) then Some((3 + w + |PartHeader|, u[4 + l..3 + w + |PartHeader|]))
        else None
  }

  /**
   * A match of the pattern at the start of `u` whose `\n` is at `k`: `---`,
   * white space up to `k`, the line feed, white space, and the part header
   * at `e`.
   */
  predicate IsDividerBefore(u: string, k: nat, e: nat) {
    StartsWith(u, "---") && 3 <= k < e && Occurs(u, PartHeader, e) && u[k] == '\n'
    && forall j :: 3 <= j < e ==> IsSpace(u[j])
  }

  /**
   * What `DividerBeforeAt` matches is the pattern, read with the last line
   * feed of the white space as its `\n`; the replacement is the group, the
   * text after that line feed.
   */
  lemma DividerBeforeSound(u: string)
    requires DividerBeforeAt(u).Some?
    ensures var (n, r) := DividerBeforeAt(u).value;
      |PartHeader| + 1 <= |r| + 1 <= n <= |u|
      && IsDividerBefore(u, n - |r| - 1, n - |PartHeader|) && r == u[n - |r|..n]
      && forall j :: n - |r| - 1 < j < n - |PartHeader| ==> u[j] != '\n'
  {
    var w := Span(u[3..], IsSpace);
    var l := LastFindChar(u[3..3 + w], '\n').value;
    var k := 3 + l;
    assert u[k] == u[3..3 + w][l];
    forall j | 3 <= j < 3 + w ensures IsSpace(u[j]) {
      assert u[j] == u[3..][j - 3];
    }
    forall j | k < j < 3 + w ensures u[j] != '\n' {
      assert u[j] == u[3..3 + w][j - 3];
    }
    assert IsDividerBefore(u, k, 3 + w);
  }

  /** Every match of the pattern is found, with the same length. */
  lemma DividerBeforeComplete(u: string, k: nat, e: nat)
    requires IsDividerBefore(u, k, e)
    ensures DividerBeforeAt(u).Some? && DividerBeforeAt(u).value.0 == e + |PartHeader|
  {
    var v := u[3..];
    var w := Span(v, IsSpace);
    forall j | 0 <= j < e - 3 ensures IsSpace(v[j]) {
      assert v[j] == u[j + 3];
    }
    assert v[e - 3] == u[e] == PartHeader[0];
    assert w == e - 3;
    assert u[3..3 + w][k - 3] == '\n';
  }

  /**
   * `/(<\/div>)\s*\n---/` tried at the start of `u`, replaced by `$1`. The
   * white space after `</div>` runs up to the `---`, so the match needs the
   * whole run and the run must end with the line feed.
   */
  function DividerAfterAt(u: string): Option<(nat, string)> {
    if !StartsWith(u, "</div>") then None
    else
      var w := Span(u[6..], IsSpace);
      if 0 < w && u[5 + w] == '\n' && Occurs(u, "---", 6 + w) then Some((9 + w, "</div>"))
      else None
  }

  /** A match of that pattern whose `---` starts at `e`: `</div>`, white space ending in a line feed, `---`. */
  predicate IsDividerAfter(u: string, e: nat) {
    StartsWith(u, "</div>") && 6 < e && Occurs(u, "---", e) && u[e - 1] == '\n'
    && forall j :: 6 <= j < e ==> IsSpace(u[j])
  }

  /** `DividerAfterAt` finds a match exactly when the pattern matches, and the match is `</div>` through `---`. */
  lemma DividerAfterSpec(u: string)
    ensures DividerAfterAt(u).Some? ==> IsDividerAfter(u, DividerAfterAt(u).value.0 - 3)
    ensures DividerAfterAt(u).None? ==> forall e :: !IsDividerAfter(u, e)
  {
    if StartsWith(u, "</div>") {
      var w := Span(u[6..], IsSpace);
      forall j | 6 <= j < 6 + w ensures IsSpace(u[j]) {
        assert u[j] == u[6..][j - 6];
      }
      forall e: nat | IsDividerAfter(u, e) ensures e == 6 + w {
        var v := u[6..];
        forall j | 0 <= j < e - 6 ensures IsSpace(v[j]) {
          assert v[j] == u[j + 6];
        }
        assert v[e - 6] == u[e] == '-';
      }
    }
  }

  /** No match of `m` starts where there is no `<` ahead. */
  ghost predicate NeedsTag(m: Matcher) {
    forall u :: '<' !in u ==> m(u).None?
  }

  /** A rule whose every match is nonempty, lies inside the text and is replaced by nothing only deletes. */
  lemma DeletingRule(m: Matcher)
    requires forall u :: m(u).Some? ==> 0 < m(u).value.0 <= |u| && m(u).value.1 == []
    ensures Consumes(m) && OnlyDeletes(m)
  {
  }

  /** `'<' !in t` holds of every suffix of `t`. */
  lemma NoTagInSuffix(t: string, j: nat)
    requires '<' !in t && j <= |t|
    ensures '<' !in t[j..]
  {
    forall i | 0 <= i < |t[j..]| ensures t[j..][i] != '<' {
      assert t[j..][i] == t[j + i];
    }
  }

  /** A rule that needs a `<` matches nowhere in a text without one. */
  lemma NoTagNoMatch(t: string, m: Matcher)
    requires NeedsTag(m) && '<' !in t
    ensures NoMatchBefore(t, m, |t|)
  {
    forall j | 0 <= j <= |t| ensures m(t[j..]).None? {
      NoTagInSuffix(t, j);
    }
  }

  /** A rule applied once, without `g`, deletes characters, and leaves text without `<` alone. */
  lemma FirstRuleStep(t: string, m: Matcher)
    requires Consumes(m) && OnlyDeletes(m) && NeedsTag(m)
    ensures IsSubsequence(ReplaceFirst(t, m), t)
    ensures '<' !in t ==> ReplaceFirst(t, m) == t
  {
    ReplaceFirstDeletes(t, m);
    if '<' !in t {
      NoTagNoMatch(t, m);
      ReplaceFirstNoMatch(t, m);
    }
  }

  /** The same for a rule applied with `g`. */
  lemma AllRuleStep(t: string, m: Matcher)
    requires Consumes(m) && OnlyDeletes(m) && NeedsTag(m)
    ensures IsSubsequence(ReplaceAll(t, m), t)
    ensures '<' !in t ==> ReplaceAll(t, m) == t
  {
    ReplaceAllDeletes(t, m);
    if '<' !in t {
      NoTagNoMatch(t, m);
      ReplaceAllNoMatch(t, m);
    }
  }

  /** A text without `<` does not start with a literal that does. */
  lemma NoTagNoPrefix(u: string, lit: string)
    requires '<' !in u && 0 < |lit| && lit[0] == '<'
    ensures !StartsWith(u, lit)
  {
    if |lit| <= |u| {
      assert u[..|lit|][0] == u[0];
    }
  }

  /** A block rule with a nonempty opening literal that starts with `<`. */
  lemma DelimitedRule(u: string, open: string, close: string)
    requires 0 < |open| && open[0] == '<'
    ensures DelimitedAt(u, open, close).Some? ==>
      0 < DelimitedAt(u, open, close).value.0 <= |u| && DelimitedAt(u, open, close).value.1 == []
    ensures '<' !in u ==> DelimitedAt(u, open, close).None?
  {
    DelimitedAtSpec(u, open, close);
    if '<' !in u {
      NoTagNoPrefix(u, open);
    }
  }

  lemma StyleRule()
    ensures Consumes(StyleAt) && OnlyDeletes(StyleAt) && NeedsTag(StyleAt)
  {
    forall u ensures (StyleAt(u).Some? ==> 0 < StyleAt(u).value.0 <= |u| && StyleAt(u).value.1 == [])
      && ('<' !in u ==> StyleAt(u).None?)
    {
      DelimitedRule(u, "<style>", "</style>\n");
    }
    DeletingRule(StyleAt);
  }

  lemma LayoutRule()
    ensures Consumes(LayoutAt) && OnlyDeletes(LayoutAt) && NeedsTag(LayoutAt)
  {
    forall u ensures (LayoutAt(u).Some? ==> 0 < LayoutAt(u).value.0 <= |u| && LayoutAt(u).value.1 == [])
      && ('<' !in u ==> LayoutAt(u).None?)
    {
      DelimitedRule(u, "<div class=\"tm-layout\">", "</aside>\n");
    }
    DeletingRule(LayoutAt);
  }

  lemma ArticleRule()
    ensures Consumes(ArticleAt) && OnlyDeletes(ArticleAt) && NeedsTag(ArticleAt)
  {
    forall u | '<' !in u ensures ArticleAt(u).None? {
      NoTagNoPrefix(u, "<div class=\"tm-article\" markdown=\"1\">\n");
    }
    DeletingRule(ArticleAt);
  }

  lemma HeaderRule()
    ensures Consumes(HeaderAt) && OnlyDeletes(HeaderAt) && NeedsTag(HeaderAt)
  {
    forall u ensures (HeaderAt(u).Some? ==> 0 < HeaderAt(u).value.0 <= |u| && HeaderAt(u).value.1 == [])
      && ('<' !in u ==> HeaderAt(u).None?)
    {
      DelimitedRule(u, "<div class=\"starc-header\">", "</div>\n");
    }
    DeletingRule(HeaderAt);
  }

  lemma DividerBeforeRule()
    ensures Consumes(DividerBeforeAt) && OnlyDeletes(DividerBeforeAt) && NeedsTag(DividerBeforeAt)
  {
    forall u ensures DividerBeforeAt(u).Some? ==>
      0 < DividerBeforeAt(u).value.0 <= |u|
      && IsSubsequence(DividerBeforeAt(u).value.1, u[..DividerBeforeAt(u).value.0])
    {
      if DividerBeforeAt(u).Some? {
        DividerBeforeDeletes(u);
      }
    }
    forall u | '<' !in u ensures DividerBeforeAt(u).None? {
      DividerBeforeNeedsTag(u);
    }
  }

  /** The divider rule keeps only the group, which ends its match. */
  lemma DividerBeforeDeletes(u: string)
    requires DividerBeforeAt(u).Some?
    ensures 0 < DividerBeforeAt(u).value.0 <= |u|
    ensures IsSubsequence(DividerBeforeAt(u).value.1, u[..DividerBeforeAt(u).value.0])
  {
    var (n, r) := DividerBeforeAt(u).value;
    DividerBeforeSound(u);
    var s := u[..n];
    DeletionIsSubsequence(s, 0, n - |r|);
    assert s[..0] + s[n - |r|..] == r;
  }

  /** The divider rule needs the part header's `<`. */
  lemma DividerBeforeNeedsTag(u: string)
    requires '<' !in u
    ensures DividerBeforeAt(u).None?
  {
    if StartsWith(u, "---") {
      var w := Span(u[3..], IsSpace);
      NoTagInSuffix(u, 3 + w);
      NoTagNoPrefix(u[3 + w..], PartHeader);
      if 3 + w + |PartHeader| <= |u| {
        assert u[3 + w..][..|PartHeader|] == u[3 + w..3 + w + |PartHeader|];
      }
    }
  }

  lemma DividerAfterRule()
    ensures Consumes(DividerAfterAt) && OnlyDeletes(DividerAfterAt) && NeedsTag(DividerAfterAt)
  {
    forall u | DividerAfterAt(u).Some?
      ensures 0 < DividerAfterAt(u).value.0 <= |u|
      ensures IsSubsequence(DividerAfterAt(u).value.1, u[..DividerAfterAt(u).value.0])
    {
      var n := DividerAfterAt(u).value.0;
      var s := u[..n];
      DeletionIsSubsequence(s, 6, n);
      assert s[..6] + s[n..] == "</div>";
    }
    forall u | '<' !in u ensures DividerAfterAt(u).None? {
      NoTagNoPrefix(u, "</div>");
    }
  }

  /** `/<style>[\s\S]*?<\/style>\n/` replaced by nothing. */
  function StripStyle(t: string): (r: string)
    ensures IsSubsequence(r, t)
    ensures '<' !in t ==> r == t
  {
    StyleRule();
    FirstRuleStep(t, StyleAt);
    ReplaceFirst(t, StyleAt)
  }

  /** The layout rule replaced by nothing. */
  function StripLayout(t: string): (r: string)
    ensures IsSubsequence(r, t)
    ensures '<' !in t ==> r == t
  {
    LayoutRule();
    FirstRuleStep(t, LayoutAt);
    ReplaceFirst(t, LayoutAt)
  }

  /** The article opening line deleted. */
  function StripArticle(t: string): (r: string)
    ensures IsSubsequence(r, t)
    ensures '<' !in t ==> r == t
  {
    ArticleRule();
    FirstRuleStep(t, ArticleAt);
    ReplaceFirst(t, ArticleAt)
  }

  /** The header block replaced by nothing. */
  function StripHeader(t: string): (r: string)
    ensures IsSubsequence(r, t)
    ensures '<' !in t ==> r == t
  {
    HeaderRule();
    FirstRuleStep(t, HeaderAt);
    ReplaceFirst(t, HeaderAt)
  }

  /** Every divider before a part header deleted, the part header kept. */
  function DropDividersBefore(t: string): (r: string)
    ensures IsSubsequence(r, t)
    ensures '<' !in t ==> r == t
  {
    DividerBeforeRule();
    AllRuleStep(t, DividerBeforeAt);
    ReplaceAll(t, DividerBeforeAt)
  }

  /** Every divider after a closing `</div>` deleted, the closing tag kept. */
  function DropDividersAfter(t: string): (r: string)
    ensures IsSubsequence(r, t)
    ensures '<' !in t ==> r == t
  {
    DividerAfterRule();
    AllRuleStep(t, DividerAfterAt);
    ReplaceAll(t, DividerAfterAt)
  }

  /** `cleanMarkdown(markdown)`: the seven rules in order. */
  function Clean(markdown: string): string {
    var noFrontmatter := RemoveFrontmatter(markdown);
    var noStyle := StripStyle(noFrontmatter);
    var noLayout := StripLayout(noStyle);
    var noArticle := StripArticle(noLayout);
    var noHeader := StripHeader(noArticle);
    var noDividerBefore := DropDividersBefore(noHeader);
    DropDividersAfter(noDividerBefore)
  }

  /** The frontmatter rule deletes a prefix. */
  lemma FrontmatterDeletes(markdown: string)
    ensures IsSubsequence(RemoveFrontmatter(markdown), markdown)
    ensures '<' !in markdown ==> '<' !in RemoveFrontmatter(markdown)
  {
    if FrontmatterEnd(markdown).Some? {
      var k := FrontmatterEnd(markdown).value;
      DeletionIsSubsequence(markdown, 0, k);
      assert markdown[..0] + markdown[k..] == RemoveFrontmatter(markdown);
      if '<' !in markdown {
        NoTagInSuffix(markdown, k);
      }
    } else {
      SubsequenceRefl(markdown);
    }
  }

  /** The cleaner only deletes characters, so its result is never longer than its input. */
  lemma CleanDeletes(markdown: string)
    ensures IsSubsequence(Clean(markdown), markdown) && |Clean(markdown)| <= |markdown|
  {
    var a := RemoveFrontmatter(markdown);
    var b := StripStyle(a);
    var c := StripLayout(b);
    var d := StripArticle(c);
    var e := StripHeader(d);
    var f := DropDividersBefore(e);
    var g := DropDividersAfter(f);
    FrontmatterDeletes(markdown);
    SubsequenceTrans(b, a, markdown);
    SubsequenceTrans(c, b, markdown);
    SubsequenceTrans(d, c, markdown);
    SubsequenceTrans(e, d, markdown);
    SubsequenceTrans(f, e, markdown);
    SubsequenceTrans(g, f, markdown);
    SubsequenceLength(g, markdown);
  }

  /** Text without a `<` is only stripped of its frontmatter; without frontmatter either, it comes back unchanged. */
  lemma CleanWithoutTags(markdown: string)
    requires '<' !in markdown
    ensures Clean(markdown) == RemoveFrontmatter(markdown)
    ensures !StartsWith(markdown, "---") ==> Clean(markdown) == markdown
  {
    FrontmatterDeletes(markdown);
  }

  /**
   * The cleaner is not idempotent: `------\n------\n` loses its first
   * `------\n` as frontmatter, and what is left is frontmatter again.
   */
  lemma CleanNotIdempotent(markdown: string)
    requires markdown == "------\n------\n"
    ensures Clean(markdown) == "------\n" && Clean(Clean(markdown)) == ""
  {
    var once := "------\n";
    assert markdown == once + once;
    EmptyFrontmatter(markdown, once);
    EmptyFrontmatter(once, "");
    assert '<' !in once;
    assert '<' !in markdown;
    CleanWithoutTags(markdown);
    CleanWithoutTags(once);
  }

  /** `------\n` at the head of a text is an empty frontmatter block. */
  lemma EmptyFrontmatter(t: string, rest: string)
    requires t == "------\n" + rest
    ensures RemoveFrontmatter(t) == rest
  {
    assert t[..3] == "---" && t[3..7] == "---\n";
    FrontmatterRemovedExactly(t, 3);
    assert t[7..] == rest;
  }

  /**
   * The style rule removes one block, from the leftmost `<style>` that a
   * `</style>\n` follows through the first such closing tag; the text
   * around it, a second block included, is kept.
   */
  lemma StyleRuleRemovesOneBlock(t: string, i: nat, n: nat)
    requires i < |t| && IsDelimited(t[i..], "<style>", "</style>\n", n)
    requires forall j :: 0 <= j < i ==> StyleAt(t[j..]).None?
    ensures i + n <= |t| && StripStyle(t) == t[..i] + t[i + n..]
  {
    StyleRule();
    var u := t[i..];
    DelimitedAtSpec(u, "<style>", "</style>\n");
    var m := StyleAt(u).value.0;
    DelimitedUnique(u, "<style>", "</style>\n", n, m);
    ReplaceFirstAt(t, StyleAt, i);
  }

  /** The lazy block is determined by its start: there is one length at most. */
  lemma DelimitedUnique(u: string, open: string, close: string, n: nat, m: nat)
    requires IsDelimited(u, open, close, n) && IsDelimited(u, open, close, m)
    ensures n == m
  {
  }
}

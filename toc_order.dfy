/**
 * The order of the entries `generateTOC` pushes (docs/build-docs.js:74-96)
 * when headings receive ids. The page changes under the scan: each heading
 * without an id is rewritten with ` id="…"`, which moves everything after it
 * to the right, while the cursor is only moved to the end of the match in
 * the page before the change. A heading without an id is rewritten at the
 * first copy of its markup, and an earlier identical heading has been
 * rewritten by then. This module proves that, on a page where no heading
 * opens another heading tag inside itself, the scan still meets exactly the
 * headings of the unchanged page, in document order.
 */
module TocOrder {
  import opened Text
  import opened Scanner
  import Slug
  import opened Toc

  /** `<h` or `<H` at position `j` of `s`: the only place a heading can start. */
  predicate OpensAt(s: string, j: nat) {
    j + 1 < |s| && s[j] == '<' && (s[j + 1] == 'h' || s[j + 1] == 'H')
  }

  predicate NoOpen(s: string) {
    forall j :: 0 <= j < |s| ==> !OpensAt(s, j)
  }

  /** `s` opens a heading tag at its start and nowhere else. */
  predicate OpensOnlyAtStart(s: string) {
    OpensAt(s, 0) && forall j :: 0 < j < |s| ==> !OpensAt(s, j)
  }

  lemma NoLessThanNoOpen(s: string)
    requires '<' !in s
    ensures NoOpen(s)
  {
    forall j | 0 <= j < |s| ensures !OpensAt(s, j) {
      assert s[j] in s;
    }
  }

  /** `<h` in a concatenation lies in one part or across the seam. */
  lemma NoOpenConcat(a: string, b: string)
    requires NoOpen(a) && NoOpen(b)
    requires a == [] || b == [] || a[|a| - 1] != '<' || (b[0] != 'h' && b[0] != 'H')
    ensures NoOpen(a + b)
  {
    forall j | 0 <= j < |a + b| ensures !OpensAt(a + b, j) {
      if j + 1 < |a| {
        assert !OpensAt(a, j);
      } else if j >= |a| {
        assert !OpensAt(b, j - |a|);
      }
    }
  }

  /** Heading markup opens a heading tag only at its start when its attributes and text open none. */
  lemma MarkupOpensOnce(h: char, level: char, attrs: string, text: string, h2: char)
    requires (h == 'h' || h == 'H') && (h2 == 'h' || h2 == 'H') && IsLevel(level)
    requires NoOpen(attrs) && NoOpen(text)
    ensures var r := Markup(h, level, attrs, text, h2); OpensOnlyAtStart(r) && r[|r| - 1] == '>'
  {
    var r := Markup(h, level, attrs, text, h2);
    var close := "</" + [h2, level] + ">";
    NoLessThanNoOpen([h, level]);
    NoOpenConcat([h, level], attrs);
    NoLessThanNoOpen(">");
    NoOpenConcat([h, level] + attrs, ">");
    NoOpenConcat([h, level] + attrs + ">", text);
    assert NoOpen(close) by {
      forall j | 0 <= j < |close| ensures !OpensAt(close, j) {
        assert close[1] == '/';
      }
    }
    NoOpenConcat([h, level] + attrs + ">" + text, close);
    var rest := [h, level] + attrs + ">" + text + close;
    assert r == "<" + rest;
    forall j | 0 < j < |r| ensures !OpensAt(r, j) {
      assert !OpensAt(rest, j - 1);
    }
  }

  /** The markup of a heading the pattern finds, when neither group opens a heading tag. */
  lemma MatchOpensOnce(html: string, m: HeadingMatch)
    requires IsMatchIn(html, m) && NoOpen(m.attrs) && NoOpen(m.text)
    ensures OpensOnlyAtStart(m.markup) && m.markup[|m.markup| - 1] == '>'
  {
    var t := html[m.start..];
    var p := Parsed(m.end - m.start, m.level, m.attrs, m.text);
    MatchIsMarkup(t, p);
    assert m.markup == t[..p.length];
    MarkupOpensOnce(t[1], m.level, m.attrs, m.text, t[p.length - 3]);
  }

  /** The markup a heading without an id is rewritten to, when its groups open no heading tag. */
  lemma NewHeadingOpensOnce(m: HeadingMatch)
    requires IsLevel(m.level) && NoOpen(m.attrs) && NoOpen(m.text)
    ensures var nh := NewHeading(m, Slug.Slug(m.text)); OpensOnlyAtStart(nh) && nh[|nh| - 1] == '>'
  {
    var id := IdAttribute(Slug.Slug(m.text));
    forall c | c in Slug.Slug(m.text) ensures c != '<' {
      assert Slug.IsSlugChar(c);
    }
    assert '<' !in id;
    NoLessThanNoOpen(id);
    NoOpenConcat(id, m.attrs);
    MarkupOpensOnce('h', m.level, id + m.attrs, m.text, 'h');
  }

  /** Two heading markups at the same place have the same attributes: both end at the first `>`. */
  lemma SameStartSameAttributes(p: string, s: nat, a: string, x: string, b: string, y: string)
    requires Occurs(p, a, s) && Occurs(p, b, s)
    requires 3 + |x| < |a| && a[3..3 + |x|] == x && a[3 + |x|] == '>' && '>' !in x
    requires 3 + |y| < |b| && b[3..3 + |y|] == y && b[3 + |y|] == '>' && '>' !in y
    ensures x == y
  {
    assert forall j :: 0 <= j < |a| && j < |b| ==> a[j] == b[j] by {
      forall j | 0 <= j < |a| && j < |b| ensures a[j] == b[j] {
        assert a[j] == p[s..s + |a|][j] && b[j] == p[s..s + |b|][j];
      }
    }
    assert a[3..3 + |x|] == b[3..3 + |y|];
  }

  /** Where the attributes of heading markup sit: from position 3 up to the `>`. */
  lemma MarkupAttributes(h: char, level: char, x: string, text: string, h2: char)
    ensures var r := Markup(h, level, x, text, h2); 3 + |x| < |r| && r[3..3 + |x|] == x && r[3 + |x|] == '>'
  {
    assert Markup(h, level, x, text, h2) == "<" + [h, level] + x + ">" + (text + "</" + [h2, level] + ">");
  }

  /** The level of a heading, and its attributes, which hold no `>`, in its markup from position 3 up to the `>`. */
  predicate Framed(m: HeadingMatch) {
    IsLevel(m.level) && '>' !in m.attrs && 3 + |m.attrs| < |m.markup|
    && m.markup[3..3 + |m.attrs|] == m.attrs && m.markup[3 + |m.attrs|] == '>'
  }

  /** Every match is framed so. */
  lemma MatchAttributes(html: string, m: HeadingMatch)
    requires IsMatchIn(html, m)
    ensures Framed(m)
  {
    var t := html[m.start..];
    var g := 3 + |m.attrs|;
    assert IsHeadingMatch(t, Parsed(m.end - m.start, m.level, m.attrs, m.text));
    assert m.markup == t[..m.end - m.start];
    assert m.markup[3..g] == t[3..g] && m.markup[g] == t[g];
  }

  /**
   * Where a heading without an id was rewritten, no other heading without an
   * id starts: the rewritten attributes begin with the injected id.
   */
  lemma RewrittenIsNoOtherHeading(p: string, s: nat, m: HeadingMatch, m2: HeadingMatch)
    requires Framed(m) && Slug.Slug(m.text) != []
    requires Occurs(p, NewHeading(m, Slug.Slug(m.text)), s)
    requires Framed(m2) && ExistingId(m2.attrs).None?
    ensures !Occurs(p, m2.markup, s)
  {
    var slug := Slug.Slug(m.text);
    if Occurs(p, m2.markup, s) {
      var x := IdAttribute(slug) + m.attrs;
      SlugAvoids(m.text);
      MarkupAttributes('h', m.level, x, m.text, 'h');
      SameStartSameAttributes(p, s, m2.markup, m2.attrs, NewHeading(m, slug), x);
      InjectedIdIsFound(slug, m.attrs);
    }
  }

  /**
   * Rewriting `len` characters at `s` into `nh` makes no copy of another
   * markup `w` that starts before the end of `nh`, when `p` held none before
   * `s` and none starts at `s`: a copy wholly before the rewrite was there
   * already, and one overlapping `nh` would open a heading tag inside `nh`
   * or inside `w`.
   */
  lemma {:induction false} NoNewCopy(p: string, s: nat, len: nat, nh: string, r: string, w: string)
    requires s + len <= |p| && r == p[..s] + nh + p[s + len..]
    requires OpensOnlyAtStart(nh) && nh[|nh| - 1] == '>'
    requires OpensOnlyAtStart(w) && w[|w| - 1] == '>'
    requires forall q: nat :: q < s ==> !Occurs(p, w, q)
    requires !Occurs(r, w, s)
    ensures forall q: nat :: q < s + |nh| ==> !Occurs(r, w, q)
  {
    forall q: nat | q < s + |nh| ensures !Occurs(r, w, q) {
      if q + |w| > |r| || q == s {
      } else if q + |w| <= s {
        assert r[q..q + |w|] == p[q..q + |w|] && !Occurs(p, w, q);
      } else if q > s {
        OccursChar(r, w, q, 0);
        OccursChar(r, w, q, 1);
        assert r[q] == nh[q - s];
        if q + 1 < s + |nh| {
          assert r[q + 1] == nh[q - s + 1] && !OpensAt(nh, q - s);
        }
      } else {
        assert r[s] == nh[0];
        OccursChar(r, w, q, s - q);
        OccursChar(r, w, q, |w| - 1);
        if s + 1 < q + |w| {
          assert r[s + 1] == nh[1] && !OpensAt(w, s - q);
          OccursChar(r, w, q, s - q + 1);
        }
      }
    }
  }

  /** A copy of the markup of a match is where the pattern reads a heading, whatever page it is in. */
  lemma CopyIsHeading(t: string, h: string, m: HeadingMatch, j: nat)
    requires IsMatchIn(h, m)
    ensures Occurs(t, m.markup, j) ==> HeadingAt(t[j..]).Some?
  {
    var u := h[m.start..];
    var pm := Parsed(m.end - m.start, m.level, m.attrs, m.text);
    MatchIsMarkup(u, pm);
    assert m.markup == u[..pm.length];
    if Occurs(t, m.markup, j) {
      assert t[j..] == m.markup + t[j + |m.markup|..];
      MarkupMatches(u[1], m.level, m.attrs, m.text, u[pm.length - 3], t[j + |m.markup|..]);
    }
  }

  /** Texts that read alike from `q` and from `j` hold a copy of `w` at `q` and at `j` alike. */
  lemma OccursAlike(p: string, q: nat, h: string, j: nat, w: string)
    requires q <= |p| && j <= |h| && p[q..] == h[j..]
    ensures Occurs(p, w, q) == Occurs(h, w, j)
  {
    if q + |w| <= |p| {
      assert p[q..q + |w|] == p[q..][..|w|] && h[j..j + |w|] == h[j..][..|w|];
    }
  }

  /**
   * Where `p` reads as `h`, from `k` up to the place of the first heading of
   * `h` from `c0`, no copy of the markup of a match of `h` starts: it would be
   * a heading of `h` before the first one.
   */
  lemma NoCopyBefore(p: string, k: nat, h: string, c0: nat, i: nat, m2: HeadingMatch)
    requires c0 <= k && Alike(p, k, h, c0) && c0 <= i <= |h|
    requires forall j :: c0 <= j < i ==> HeadingAt(h[j..]).None?
    requires IsMatchIn(h, m2)
    ensures forall q: nat :: k <= q < i + (k - c0) ==> !Occurs(p, m2.markup, q)
  {
    forall q: nat | k <= q < i + (k - c0) ensures !Occurs(p, m2.markup, q) {
      var j := q - (k - c0);
      TailShift(p, k, h, c0, j);
      OccursAlike(p, q, h, j, m2.markup);
      CopyIsHeading(h, h, m2, j);
    }
  }

  /** The headings of `ms` have no copy before `k`, nor between `k` and the first heading of `h` from `c0`. */
  lemma ExtendCopies(p: string, k: nat, h: string, c0: nat, i: nat, ms: seq<HeadingMatch>)
    requires c0 <= k && Alike(p, k, h, c0) && c0 <= i <= |h|
    requires forall j :: c0 <= j < i ==> HeadingAt(h[j..]).None?
    requires forall m2 :: m2 in ms ==> IsMatchIn(h, m2)
    requires FirstCopies(p, k, ms)
    ensures FirstCopies(p, i + (k - c0), ms)
  {
    forall m2 | m2 in ms && ExistingId(m2.attrs).None?
      ensures forall q: nat :: q < i + (k - c0) ==> !Occurs(p, m2.markup, q)
    {
      NoCopyBefore(p, k, h, c0, i, m2);
    }
  }

  /** A copy of `w` at `q` puts each character of `w` in its place. */
  lemma OccursChar(r: string, w: string, q: nat, i: nat)
    requires i < |w|
    ensures Occurs(r, w, q) ==> r[q + i] == w[i]
  {
    if Occurs(r, w, q) {
      assert r[q..q + |w|][i] == r[q + i];
    }
  }

  /** After the rewrite, no heading starts in the part of `nh` beyond the length of the markup it replaced. */
  lemma NoHeadingInGrowth(p: string, s: nat, len: nat, nh: string, r: string, j: nat)
    requires s + len <= |p| && 0 < len <= |nh| && r == p[..s] + nh + p[s + len..]
    requires OpensOnlyAtStart(nh) && nh[|nh| - 1] == '>'
    requires s + len <= j < s + |nh|
    ensures HeadingAt(r[j..]).None?
  {
    if HeadingAt(r[j..]).Some? && j + 1 < s + |nh| {
      assert r[j..][1] == nh[j - s + 1];
      assert OpensAt(nh, j - s);
    }
  }

  /** The matches `AllMatches` lists lie at or after the cursor, and are matches in the page. */
  lemma {:induction false} AllMatchesIn(html: string, cursor: nat, m: HeadingMatch)
    requires m in AllMatches(html, cursor)
    ensures cursor <= m.start && IsMatchIn(html, m)
    decreases |html| - cursor
  {
    FindHeadingSpec(html, cursor);
    var f := FindHeading(html, cursor).value;
    assert AllMatches(html, cursor) == [f] + AllMatches(html, f.end);
    if m != f {
      AllMatchesIn(html, f.end, m);
    }
  }

  /** `m`, moved `d` characters to the right. */
  function Shifted(m: HeadingMatch, d: nat): (r: HeadingMatch)
    ensures r.end - r.start == m.end - m.start
  {
    m.(start := m.start + d, end := m.end + d)
  }

  /**
   * Searching from `c` in a page whose tail from `k` is the tail of `h` from
   * `c0`, when no heading starts between `c` and `k`, finds what a search of
   * `h` from `c0` finds, moved right by `k - c0`.
   */
  lemma {:induction false} FindShifted(p: string, c: nat, k: nat, h: string, c0: nat)
    requires c <= k <= |p| && c0 <= k && c0 <= |h| && p[k..] == h[c0..]
    requires Clear(p, c, k)
    ensures Leftmost(p, HeadingAt, c).None? == Leftmost(h, HeadingAt, c0).None?
    ensures Leftmost(h, HeadingAt, c0).Some? ==>
      var i := Leftmost(h, HeadingAt, c0).value;
      c0 <= i <= |h| && i + (k - c0) <= |p| && Leftmost(p, HeadingAt, c) == Some(i + (k - c0))
      && p[i + (k - c0)..] == h[i..]
  {
    LeftmostSkips(p, HeadingAt, c, k);
    LeftmostOnSameSuffix(p, k, h, c0, HeadingAt);
    if Leftmost(h, HeadingAt, c0).Some? {
      LeftmostInRange(h, HeadingAt, c0);
      TailShift(p, k, h, c0, Leftmost(h, HeadingAt, c0).value);
    }
  }

  /** `FindHeading` finds nothing exactly when no heading starts from `c` on. */
  lemma FindNone(t: string, c: nat)
    ensures FindHeading(t, c).None? == Leftmost(t, HeadingAt, c).None?
  {
  }

  /** Two texts alike from `k` and from `c0` stay alike from any later place, taken in step. */
  lemma TailShift(p: string, k: nat, h: string, c0: nat, i: nat)
    requires k <= |p| && c0 <= i <= |h| && c0 <= k && p[k..] == h[c0..]
    ensures i + (k - c0) <= |p| && p[i + (k - c0)..] == h[i..]
  {
    assert p[i + (k - c0)..] == p[k..][i - c0..];
    assert h[i..] == h[c0..][i - c0..];
  }

  /** Searches that stop where the two texts read alike find the same heading, at the two places. */
  lemma FindSame(p: string, c: nat, h: string, c0: nat, i: nat, d: nat)
    requires Leftmost(p, HeadingAt, c) == Some(i + d) && Leftmost(h, HeadingAt, c0) == Some(i)
    requires i + d <= |p| && i <= |h| && p[i + d..] == h[i..]
    ensures FindHeading(h, c0).Some? && FindHeading(h, c0).value.start == i
    ensures FindHeading(p, c) == Some(Shifted(FindHeading(h, c0).value, d))
  {
    FindAt(h, c0, i);
    FindAt(p, c, i + d);
    MatchOfShift(p, h, i, d);
  }

  /** The match that the heading pattern makes at `i`, once it is known to match there. */
  function MatchOf(t: string, i: nat): (r: HeadingMatch)
    requires i < |t| && HeadingAt(t[i..]).Some? && HeadingAt(t[i..]).value.length <= |t| - i
    ensures r.start == i && r.end <= |t|
  {
    var q := HeadingAt(t[i..]).value;
    HeadingMatch(i, i + q.length, t[i..i + q.length], q.level, q.attrs, q.text)
  }

  /** What `FindHeading` returns once the leftmost heading start is known. */
  lemma FindAt(t: string, c: nat, i: nat)
    requires Leftmost(t, HeadingAt, c) == Some(i)
    ensures i < |t| && HeadingAt(t[i..]).Some? && HeadingAt(t[i..]).value.length <= |t| - i
    ensures FindHeading(t, c) == Some(MatchOf(t, i))
  {
    LeftmostInRange(t, HeadingAt, c);
    HeadingAtSound(t[i..]);
  }

  /** Where two texts read alike, the pattern makes the same match, at places `d` apart. */
  lemma MatchOfShift(p: string, h: string, i: nat, d: nat)
    requires i < |h| && i + d <= |p| && p[i + d..] == h[i..]
    requires HeadingAt(h[i..]).Some? && HeadingAt(h[i..]).value.length <= |h| - i
    ensures HeadingAt(p[i + d..]).Some? && HeadingAt(p[i + d..]).value.length <= |p| - (i + d)
    ensures MatchOf(p, i + d) == Shifted(MatchOf(h, i), d)
  {
    var len := HeadingAt(h[i..]).value.length;
    assert p[i + d..i + d + len] == h[i..i + len] by {
      assert p[i + d..i + d + len] == p[i + d..][..len];
      assert h[i..i + len] == h[i..][..len];
    }
  }

  /** The rewritten page: the rewritten markup at the heading's place, no heading starting in what it added, then the tail of `h`. */
  lemma RewriteShape(p: string, m': HeadingMatch, h: string, m: HeadingMatch, d: nat)
    requires Here(p, m', h, m, d) && ExistingId(m.attrs).None?
    ensures Inject(p, m') == p[..m'.start] + NewHeading(m, Slug.Slug(m.text)) + p[m'.start + |m.markup|..]
    ensures m'.end <= Resume(m, d) <= |Inject(p, m')| && m.end <= Resume(m, d)
    ensures Alike(Inject(p, m'), Resume(m, d), h, m.end)
    ensures Clear(Inject(p, m'), m'.end, Resume(m, d))
  {
    var nh := NewHeading(m, Slug.Slug(m.text));
    assert m'.start + |m.markup| == m'.end && m'.start + |nh| == Resume(m, d);
    InjectHere(p, m', m, d);
    GrowthOf(p, m'.start, m, nh, Inject(p, m'), h, m.end);
  }

  /** `Growth`, for the markup a heading without an id is rewritten to. */
  lemma GrowthOf(p: string, s: nat, m: HeadingMatch, nh: string, r: string, h: string, e: nat)
    requires nh == NewHeading(m, Slug.Slug(m.text)) && IsLevel(m.level) && NoOpen(m.attrs) && NoOpen(m.text)
    requires |m.markup| == 9 + |m.attrs| + |m.text| && s + |m.markup| <= |p|
    requires r == p[..s] + nh + p[s + |m.markup|..]
    requires Alike(p, s + |m.markup|, h, e)
    ensures |m.markup| <= |nh| && s + |nh| <= |r|
    ensures Alike(r, s + |nh|, h, e) && Clear(r, s + |m.markup|, s + |nh|)
  {
    NewHeadingOpensOnce(m);
    Growth(p, s, |m.markup|, nh, r, h, e);
  }

  /** A heading without an id and without an earlier copy is rewritten where the scan found it. */
  lemma InjectHere(p: string, m': HeadingMatch, m: HeadingMatch, d: nat)
    requires MarkupAt(p, m') && m' == Shifted(m, d) && ExistingId(m.attrs).None?
    requires forall q: nat :: q < m'.start ==> !Occurs(p, m.markup, q)
    ensures Inject(p, m') == p[..m'.start] + NewHeading(m, Slug.Slug(m.text)) + p[m'.start + |m.markup|..]
  {
    assert m'.end == m'.start + |m.markup| && m'.text == m.text;
    assert NewHeading(m', Slug.Slug(m'.text)) == NewHeading(m, Slug.Slug(m.text));
    InjectAtScannedHeading(p, m');
  }

  /** Replacing `len` characters at `s` by `nh`, which opens a heading tag only at its start, leaves the tail in place after `nh`. */
  lemma Growth(p: string, s: nat, len: nat, nh: string, r: string, h: string, e: nat)
    requires s + len <= |p| && 0 < len <= |nh| && r == p[..s] + nh + p[s + len..]
    requires OpensOnlyAtStart(nh) && nh[|nh| - 1] == '>'
    requires Alike(p, s + len, h, e)
    ensures Alike(r, s + |nh|, h, e) && Clear(r, s + len, s + |nh|)
  {
    assert r[s + |nh|..] == p[s + len..];
    forall j | s + len <= j < s + |nh| ensures HeadingAt(r[j..]).None? {
      NoHeadingInGrowth(p, s, len, nh, r, j);
    }
  }

  /**
   * A heading still ahead, without a copy before the place `s` of the
   * rewrite, has none in the rewritten page before the end of the new markup:
   * a heading without an id cannot start where the id was just written in.
   */
  lemma AheadHasNoEarlierCopy(p: string, s: nat, nh: string, p': string, m: HeadingMatch, m2: HeadingMatch)
    requires Framed(m) && Slug.Slug(m.text) != [] && nh == NewHeading(m, Slug.Slug(m.text))
    requires s + |m.markup| <= |p| && p' == p[..s] + nh + p[s + |m.markup|..]
    requires OpensOnlyAtStart(nh) && nh[|nh| - 1] == '>'
    requires Framed(m2) && ExistingId(m2.attrs).None?
    requires OpensOnlyAtStart(m2.markup) && m2.markup[|m2.markup| - 1] == '>'
    requires forall q: nat :: q < s ==> !Occurs(p, m2.markup, q)
    ensures forall q: nat :: q < s + |nh| ==> !Occurs(p', m2.markup, q)
  {
    assert p'[s..s + |nh|] == nh;
    RewrittenIsNoOtherHeading(p', s, m, m2);
    NoNewCopy(p, s, |m.markup|, nh, p', m2.markup);
  }

  /** What the scan needs of a heading it has yet to meet. */
  lemma AheadOf(h: string, e: nat, m2: HeadingMatch)
    requires m2 in AllMatches(h, e) && NoOpen(m2.attrs) && NoOpen(m2.text)
    ensures e <= m2.start && Framed(m2) && OpensOnlyAtStart(m2.markup) && m2.markup[|m2.markup| - 1] == '>'
  {
    AllMatchesIn(h, e, m2);
    MatchOpensOnce(h, m2);
    MatchAttributes(h, m2);
  }

  /** Neither group of the heading opens a heading tag, and a heading without an id gets a nonempty slug. */
  ghost predicate Plain(m: HeadingMatch) {
    NoOpen(m.attrs) && NoOpen(m.text) && (ExistingId(m.attrs).None? ==> Slug.Slug(m.text) != [])
  }

  /** `p` from `k` reads as `h` from `c0`. */
  predicate Alike(p: string, k: nat, h: string, c0: nat) {
    k <= |p| && c0 <= |h| && p[k..] == h[c0..]
  }

  /** Every heading of `ms` is plain. */
  ghost predicate AllPlain(ms: seq<HeadingMatch>) {
    forall m :: m in ms ==> Plain(m)
  }

  /** No heading of the pattern starts in `p` between `c` and `k`. */
  ghost predicate Clear(p: string, c: nat, k: nat) {
    k <= |p| && forall j :: c <= j < k ==> HeadingAt(p[j..]).None?
  }

  /** No heading of `ms` without an id has a copy of its markup starting in `p` before `k`. */
  ghost predicate FirstCopies(p: string, k: nat, ms: seq<HeadingMatch>) {
    forall m :: m in ms && ExistingId(m.attrs).None? ==>
      forall q: nat :: q < k ==> !Occurs(p, m.markup, q)
  }

  /**
   * The scan of `p` from `c` follows `h` from `c0`: `p` from `k` is `h` from
   * `c0`, no heading starts between `c` and `k`, and the headings of `h` still
   * ahead are plain and those without an id have no copy in `p` before `k`,
   * in the part the scan has already rewritten.
   */
  ghost predicate Follows(p: string, c: nat, k: nat, h: string, c0: nat) {
    c <= k && c0 <= k && Alike(p, k, h, c0)
    && Clear(p, c, k)
    && Ahead(p, k, AllMatches(h, c0))
  }

  /** The headings of `ms` are plain, and those without an id have no copies in `p` before `k`. */
  ghost predicate Ahead(p: string, k: nat, ms: seq<HeadingMatch>) {
    AllPlain(ms) && FirstCopies(p, k, ms)
  }

  /** Where the copy of `h` starts again after the scan handles `m`: past the match, or past the rewritten markup. */
  function Resume(m: HeadingMatch, d: nat): nat {
    if ExistingId(m.attrs).Some? then m.end + d else m.start + d + |NewHeading(m, Slug.Slug(m.text))|
  }

  /**
   * The first turn of a scan of `p` that follows `h` meets the first heading
   * of `h`, moved right by `k - c0`.
   */
  lemma {:induction false} MatchFirst(p: string, c: nat, k: nat, h: string, c0: nat, m: HeadingMatch)
    requires c <= k && c0 <= k && Alike(p, k, h, c0)
    requires Clear(p, c, k)
    requires FindHeading(h, c0) == Some(m)
    ensures var m' := Shifted(m, k - c0);
      FindHeading(p, c) == Some(m') && c0 <= m.start && IsMatchIn(p, m') && IsMatchIn(h, m)
      && Alike(p, m'.end, h, m.end) && AllMatches(h, c0) == [m] + AllMatches(h, m.end)
  {
    FindShifted(p, c, k, h, c0);
    FindNone(h, c0);
    FirstFound(p, c, h, c0, Leftmost(h, HeadingAt, c0).value, k - c0, m);
  }

  /** The first heading of `h` from `c0`, found at `i`, is found in `p` at `i + d` when `p` from there reads as `h` from `i`. */
  lemma FindFirst(p: string, c: nat, h: string, c0: nat, i: nat, d: nat, m: HeadingMatch)
    requires Leftmost(h, HeadingAt, c0) == Some(i) && Leftmost(p, HeadingAt, c) == Some(i + d)
    requires c0 <= i <= |h| && i + d <= |p| && p[i + d..] == h[i..]
    requires FindHeading(h, c0) == Some(m)
    ensures FindHeading(p, c) == Some(Shifted(m, d)) && Alike(p, m.start + d, h, m.start)
  {
    FindSame(p, c, h, c0, i, d);
  }

  /** The first heading of `h` from `c0`, and what the scan of `p` makes of it, `d` further on. */
  lemma FirstFound(p: string, c: nat, h: string, c0: nat, i: nat, d: nat, m: HeadingMatch)
    requires Leftmost(h, HeadingAt, c0) == Some(i) && Leftmost(p, HeadingAt, c) == Some(i + d)
    requires c0 <= i <= |h| && i + d <= |p| && p[i + d..] == h[i..]
    requires FindHeading(h, c0) == Some(m)
    ensures FindHeading(p, c) == Some(Shifted(m, d)) && c0 <= m.start && IsMatchIn(p, Shifted(m, d)) && IsMatchIn(h, m)
    ensures Alike(p, Shifted(m, d).end, h, m.end) && AllMatches(h, c0) == [m] + AllMatches(h, m.end)
  {
    FindFirst(p, c, h, c0, i, d, m);
    FoundPair(p, c, h, c0, m, d);
    AllMatchesFirst(h, c0, m);
  }

  /** A heading found in both texts, at places `d` apart where they read alike, is a match in each, and they read alike after it. */
  lemma FoundPair(p: string, c: nat, h: string, c0: nat, m: HeadingMatch, d: nat)
    requires FindHeading(p, c) == Some(Shifted(m, d)) && FindHeading(h, c0) == Some(m)
    requires Alike(p, m.start + d, h, m.start)
    ensures c0 <= m.start && IsMatchIn(p, Shifted(m, d)) && IsMatchIn(h, m)
    ensures Alike(p, m.end + d, h, m.end)
  {
    FoundIsMatch(h, c0, m);
    FoundIsMatch(p, c, Shifted(m, d));
    TailShift(p, m.start + d, h, m.start, m.end);
  }

  /** A heading `exec` finds lies at or after the cursor and is a match in the page. */
  lemma FoundIsMatch(t: string, c: nat, m: HeadingMatch)
    requires FindHeading(t, c) == Some(m)
    ensures c <= m.start && IsMatchIn(t, m)
  {
    FindHeadingSpec(t, c);
  }

  /** The headings from `c0` are the first one, then those after it. */
  lemma AllMatchesFirst(h: string, c0: nat, m: HeadingMatch)
    requires FindHeading(h, c0) == Some(m)
    ensures AllMatches(h, c0) == [m] + AllMatches(h, m.end)
  {
  }

  /**
   * What the scan needs at a heading `m` of `h` that it meets as `m'` in `p`,
   * moved right by `d`: the markup is there, the tail after it is the tail of
   * `h`, the heading and those after it are plain, and none without an id has
   * a copy before `m'`.
   */
  ghost predicate Turn(p: string, m': HeadingMatch, h: string, m: HeadingMatch, d: nat) {
    Here(p, m', h, m, d) && Ahead(p, m'.start, AllMatches(h, m.end))
  }

  /** The part of `Turn` about the heading itself. */
  ghost predicate Here(p: string, m': HeadingMatch, h: string, m: HeadingMatch, d: nat) {
    MarkupAt(p, m') && Framed(m) && m.end <= |h| && m' == Shifted(m, d)
    && Alike(p, m'.end, h, m.end) && Plain(m)
    && (ExistingId(m.attrs).None? ==> forall q: nat :: q < m'.start ==> !Occurs(p, m.markup, q))
  }

  /** After the first turn, the scan of the updated page follows `h` from the end of the heading. */
  lemma NextFollows(p: string, m': HeadingMatch, h: string, m: HeadingMatch, d: nat)
    requires Turn(p, m', h, m, d)
    requires ExistingId(m.attrs).Some? ==> FirstCopies(p, m'.end, AllMatches(h, m.end))
    ensures Follows(Inject(p, m'), m'.end, Resume(m, d), h, m.end)
  {
    if ExistingId(m.attrs).Some? {
      assert Inject(p, m') == p;
    } else {
      RewriteStep(p, m', h, m, d);
    }
  }

  /**
   * A heading with an id is kept: no heading ahead without an id has a copy
   * of its markup before the end of the kept one, since a copy at its start
   * would have the same attributes and one inside it would open a heading
   * tag there.
   */
  lemma KeepStep(p: string, s: nat, m: HeadingMatch, h: string, e: nat)
    requires Occurs(p, m.markup, s) && OpensOnlyAtStart(m.markup) && m.markup[|m.markup| - 1] == '>'
    requires Framed(m) && ExistingId(m.attrs).Some?
    requires Ahead(p, s, AllMatches(h, e))
    ensures FirstCopies(p, s + |m.markup|, AllMatches(h, e))
  {
    forall m2 | m2 in AllMatches(h, e) && ExistingId(m2.attrs).None?
      ensures forall q: nat :: q < s + |m.markup| ==> !Occurs(p, m2.markup, q)
    {
      AheadOf(h, e, m2);
      KeptMatchNoCopy(p, s, m, m2);
    }
  }

  /** `KeptHeadingNoCopy`, for the markups of a heading with an id and one without. */
  lemma KeptMatchNoCopy(p: string, s: nat, m: HeadingMatch, m2: HeadingMatch)
    requires Occurs(p, m.markup, s) && OpensOnlyAtStart(m.markup) && m.markup[|m.markup| - 1] == '>'
    requires Framed(m) && ExistingId(m.attrs).Some?
    requires Framed(m2) && ExistingId(m2.attrs).None? && OpensOnlyAtStart(m2.markup)
    requires forall q: nat :: q < s ==> !Occurs(p, m2.markup, q)
    ensures forall q: nat :: q < s + |m.markup| ==> !Occurs(p, m2.markup, q)
  {
    KeptHeadingNoCopy(p, s, m.markup, m.attrs, m2.markup, m2.attrs);
  }

  /**
   * A heading markup `u` at `s`, and a markup `w` with other attributes and
   * no copy before `s`: `w` has no copy before the end of `u` either.
   */
  lemma KeptHeadingNoCopy(p: string, s: nat, u: string, x: string, w: string, y: string)
    requires Occurs(p, u, s) && OpensOnlyAtStart(u) && u[|u| - 1] == '>'
    requires 3 + |x| < |u| && u[3..3 + |x|] == x && u[3 + |x|] == '>' && '>' !in x
    requires 3 + |y| < |w| && w[3..3 + |y|] == y && w[3 + |y|] == '>' && '>' !in y
    requires OpensOnlyAtStart(w) && x != y
    requires forall q: nat :: q < s ==> !Occurs(p, w, q)
    ensures forall q: nat :: q < s + |u| ==> !Occurs(p, w, q)
  {
    forall q: nat | q < s + |u| ensures !Occurs(p, w, q) {
      if q == s {
        if Occurs(p, w, s) {
          SameStartSameAttributes(p, s, u, x, w, y);
        }
      } else if q > s {
        OccursChar(p, w, q, 0);
        OccursChar(p, w, q, 1);
        OccursChar(p, u, s, q - s);
        if q + 1 < s + |u| {
          OccursChar(p, u, s, q - s + 1);
          assert !OpensAt(u, q - s);
        }
      }
    }
  }

  /** What the conditions on the headings ahead say of the first of them and of the rest. */
  lemma AheadFacts(p: string, k: nat, m: HeadingMatch, rest: seq<HeadingMatch>)
    requires AllPlain([m] + rest)
    requires FirstCopies(p, k, [m] + rest)
    ensures Plain(m) && AllPlain(rest) && FirstCopies(p, k, rest)
    ensures ExistingId(m.attrs).None? ==> forall q: nat :: q < k ==> !Occurs(p, m.markup, q)
  {
    assert m in [m] + rest;
    assert forall x :: x in rest ==> x in [m] + rest;
  }

  /**
   * A heading without an id, rewritten at its own place: the updated page
   * follows `h` from the end of the heading, with the copy resuming after the
   * rewritten markup.
   */
  lemma RewriteStep(p: string, m': HeadingMatch, h: string, m: HeadingMatch, d: nat)
    requires Turn(p, m', h, m, d) && ExistingId(m.attrs).None?
    ensures Follows(Inject(p, m'), m'.end, Resume(m, d), h, m.end)
  {
    RewriteShape(p, m', h, m, d);
    AheadAfterRewrite(p, Inject(p, m'), m', h, m, d);
    FollowsFrom(Inject(p, m'), m'.end, Resume(m, d), h, m.end);
  }

  /** `Follows`, from its parts. */
  lemma FollowsFrom(p: string, c: nat, k: nat, h: string, c0: nat)
    requires c <= k <= |p| && c0 <= k && c0 <= |h|
    requires Alike(p, k, h, c0)
    requires Clear(p, c, k)
    requires AllPlain(AllMatches(h, c0))
    requires FirstCopies(p, k, AllMatches(h, c0))
    ensures Follows(p, c, k, h, c0)
  {
  }

  /** The headings still ahead have no copy in the rewritten page before the end of the new markup. */
  lemma {:induction false} AheadAfterRewrite(p: string, p': string, m': HeadingMatch, h: string, m: HeadingMatch, d: nat)
    requires Turn(p, m', h, m, d) && ExistingId(m.attrs).None?
    requires p' == p[..m'.start] + NewHeading(m, Slug.Slug(m.text)) + p[m'.start + |m.markup|..]
    ensures FirstCopies(p', Resume(m, d), AllMatches(h, m.end))
  {
    var nh := NewHeading(m, Slug.Slug(m.text));
    var s := m'.start;
    NewHeadingOpensOnce(m);
    assert s + |nh| == Resume(m, d) && s + |m.markup| <= |p|;
    assert Framed(m) && Slug.Slug(m.text) != [];
    forall m2 | m2 in AllMatches(h, m.end) && ExistingId(m2.attrs).None?
      ensures forall q: nat :: q < s + |nh| ==> !Occurs(p', m2.markup, q)
    {
      AheadOf(h, m.end, m2);
      AheadHasNoEarlierCopy(p, s, nh, p', m, m2);
    }
  }

  /**
   * The scan of a page that follows `h` from `c0` pushes the entries of the
   * headings of `h` from `c0`, in order.
   */
  lemma {:induction false} ScanFollowsPage(p: string, c: nat, k: nat, h: string, c0: nat)
    requires Follows(p, c, k, h, c0)
    ensures Scan(p, c).1 == Entries(AllMatches(h, c0))
    decreases |h| - c0
  {
    match FindHeading(h, c0)
    case None =>
      FindShifted(p, c, k, h, c0);
      FindNone(p, c);
      FindNone(h, c0);
      assert Entries([]) == [];
    case Some(m) =>
      var m' := Shifted(m, k - c0);
      TurnScan(p, c, k, h, c0, m);
      TurnNext(p, c, k, h, c0, m);
      ScanFollowsPage(Inject(p, m'), m'.end, Resume(m, k - c0), h, m.end);
      EntriesCons(m, AllMatches(h, m.end));
  }

  /** One turn of a scan that follows `h`: the entry of the first heading of `h`, then the scan of the updated page past it. */
  lemma TurnScan(p: string, c: nat, k: nat, h: string, c0: nat, m: HeadingMatch)
    requires Follows(p, c, k, h, c0) && FindHeading(h, c0) == Some(m)
    ensures c0 < m.end && AllMatches(h, c0) == [m] + AllMatches(h, m.end)
    ensures Scan(p, c).1 == [Entry(m)] + Scan(Inject(p, Shifted(m, k - c0)), Shifted(m, k - c0).end).1
  {
    var m' := Shifted(m, k - c0);
    MatchFirst(p, c, k, h, c0, m);
    ScanStep(p, c, m');
    assert Entry(m') == Entry(m);
  }

  /** After one turn of a scan that follows `h`, the scan of the updated page follows `h` past the first heading. */
  lemma TurnNext(p: string, c: nat, k: nat, h: string, c0: nat, m: HeadingMatch)
    requires Follows(p, c, k, h, c0) && FindHeading(h, c0) == Some(m)
    ensures Follows(Inject(p, Shifted(m, k - c0)), Shifted(m, k - c0).end, Resume(m, k - c0), h, m.end)
  {
    TurnHolds(p, c, k, h, c0, m);
    if ExistingId(m.attrs).Some? {
      KeepHolds(p, c, k, h, c0, m);
    }
    NextFollows(p, Shifted(m, k - c0), h, m, k - c0);
  }

  /** The first heading of `h`, when it has an id, is kept, and no heading ahead without an id has a copy before its end. */
  lemma KeepHolds(p: string, c: nat, k: nat, h: string, c0: nat, m: HeadingMatch)
    requires Follows(p, c, k, h, c0) && FindHeading(h, c0) == Some(m) && ExistingId(m.attrs).Some?
    ensures FirstCopies(p, Shifted(m, k - c0).end, AllMatches(h, m.end))
  {
    var m' := Shifted(m, k - c0);
    TurnHolds(p, c, k, h, c0, m);
    MatchFirst(p, c, k, h, c0, m);
    MatchOpensOnce(h, m);
    assert Occurs(p, m.markup, m'.start) && m'.end == m'.start + |m.markup|;
    KeepStep(p, m'.start, m, h, m.end);
  }

  /** The first heading of `h` meets the conditions of a turn, at its place in `p`. */
  lemma TurnHolds(p: string, c: nat, k: nat, h: string, c0: nat, m: HeadingMatch)
    requires Follows(p, c, k, h, c0) && FindHeading(h, c0) == Some(m)
    ensures Turn(p, Shifted(m, k - c0), h, m, k - c0)
  {
    MatchFirst(p, c, k, h, c0, m);
    FindHeadingSpec(h, c0);
    forall m2 | m2 in AllMatches(h, c0) ensures IsMatchIn(h, m2) {
      AllMatchesIn(h, c0, m2);
    }
    ExtendCopies(p, k, h, c0, m.start, AllMatches(h, c0));
    AheadFacts(p, m.start + (k - c0), m, AllMatches(h, m.end));
    MatchAttributes(h, m);
  }

  /**
   * On a page where no heading opens a heading tag inside its attributes or
   * text, and every heading without an id gets a nonempty slug, the table
   * of contents lists one entry per heading of the page, in document order,
   * even though the page grows under the scan. Repeated headings are
   * allowed: an earlier identical heading is rewritten before the scan
   * reaches the later one.
   */
  lemma HeadingsInOrder(html: string)
    requires AllPlain(AllMatches(html, 0))
    ensures Scan(html, 0).1 == Entries(AllMatches(html, 0))
  {
    assert Follows(html, 0, 0, html, 0);
    ScanFollowsPage(html, 0, 0, html, 0);
  }

  /**
   * The loop as written, on such a page without `$`: it pushes one entry per
   * heading of the page, in document order, and stops after the last one.
   */
  lemma AsWrittenInOrder(html: string)
    requires '$' !in html && AllPlain(AllMatches(html, 0))
    ensures var n := |AllMatches(html, 0)|;
      PushedAsWritten(html, 0, n) == Entries(AllMatches(html, 0))
      && RunAsWritten(html, 0, n).Some? && RunAsWritten(html, 0, n + 1).None?
  {
    HeadingsInOrder(html);
    AsWrittenAgreesWithoutDollar(html, 0);
  }
}

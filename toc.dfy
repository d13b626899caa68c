/**
 * `generateTOC` (docs/build-docs.js:69-105). The heading pattern
 * `/<h([123])([^>]*)>(.*?)<\/h\1>/gi` is run with `exec` from a cursor
 * (`lastIndex`) that survives every reassignment of `html`; each heading
 * keeps the `id` its attributes carry or gets one made from its text, and
 * that id is written back into the page by replacing the first occurrence
 * of the heading's markup. The table of contents is one `<li>` line per
 * heading, in the order the scan met them.
 */
module Toc {
  import opened Text
  import opened Scanner
  import opened Slug

  /** A heading read by the pattern at the start of a text: how long the match is, and its three groups. */
  datatype Parsed = Parsed(length: nat, level: char, attrs: string, text: string)

  /** A heading found in the page: where its markup (`match[0]`) starts and ends, the markup, and the three groups. */
  datatype HeadingMatch = HeadingMatch(start: nat, end: nat, markup: string, level: char, attrs: string, text: string)

  /** One entry of `headings`: the level, the id and the text with its tags removed. */
  datatype Heading = Heading(level: char, id: string, text: string)

  /** `[123]` */
  predicate IsLevel(c: char) {
    c == '1' || c == '2' || c == '3'
  }

  /** `<\/h\1>` at position `k`; the `i` flag lets the `h` be upper case. */
  predicate ClosesAt(t: string, k: nat, level: char) {
    k + 5 <= |t| && t[k] == '<' && t[k + 1] == '/' && (t[k + 2] == 'h' || t[k + 2] == 'H')
    && t[k + 3] == level && t[k + 4] == '>'
  }

  /**
   * `t` starts with a match of the heading pattern whose groups are those of
   * `p`: `<h`, the level, attributes up to the first `>`, then the shortest
   * run of characters other than line terminators that the closing tag of the
   * same level follows.
   */
  predicate IsHeadingMatch(t: string, p: Parsed) {
    var g := 3 + |p.attrs|;
    var e := g + 1 + |p.text|;
    IsLevel(p.level) && p.length == e + 5 && e + 5 <= |t|
    && t[0] == '<' && (t[1] == 'h' || t[1] == 'H') && t[2] == p.level
    && t[3..g] == p.attrs && (forall c :: c in p.attrs ==> c != '>') && t[g] == '>'
    && t[g + 1..e] == p.text && (forall c :: c in p.text ==> !IsLineTerminator(c))
    && ClosesAt(t, e, p.level)
    && (forall j :: g + 1 <= j < e ==> !ClosesAt(t, j, p.level))
  }

  /** `(.*?)<\/h\1>` read from position `k`: where the lazy text stops. */
  function TextEnd(t: string, k: nat, level: char): (r: Option<nat>)
    ensures r.Some? ==> k <= r.value && ClosesAt(t, r.value, level)
    ensures r.Some? ==> forall j :: k <= j < r.value ==> !ClosesAt(t, j, level) && !IsLineTerminator(t[j])
    decreases |t| - k
  {
    if k >= |t| then None
    else if ClosesAt(t, k, level) then Some(k)
    else if IsLineTerminator(t[k]) then None
    else TextEnd(t, k + 1, level)
  }

  /** The lazy text stops at the first closing tag that no line terminator precedes. */
  lemma {:induction false} TextEndFinds(t: string, k: nat, e: nat, level: char)
    requires k <= e && ClosesAt(t, e, level)
    requires forall j :: k <= j < e ==> !ClosesAt(t, j, level) && !IsLineTerminator(t[j])
    ensures TextEnd(t, k, level) == Some(e)
    decreases e - k
  {
    if k < e {
      TextEndFinds(t, k + 1, e, level);
    }
  }

  /** The heading pattern tried at the start of `t` (`HeadingAtSound`, `HeadingAtComplete`). */
  function HeadingAt(t: string): Option<Parsed> {
    if |t| < 3 || t[0] != '<' || !(t[1] == 'h' || t[1] == 'H') || !IsLevel(t[2]) then None
    else match FindChar(t, '>', 3)
      case None => None
      case Some(g) =>
        match TextEnd(t, g + 1, t[2])
        case None => None
        case Some(e) => Some(Parsed(e + 5, t[2], t[3..g], t[g + 1..e]))
  }

  /** What `HeadingAt` reads is a match of the pattern. */
  lemma HeadingAtSound(t: string)
    ensures HeadingAt(t).Some? ==> IsHeadingMatch(t, HeadingAt(t).value)
  {
    if HeadingAt(t).Some? {
      var g := FindChar(t, '>', 3).value;
      var e := TextEnd(t, g + 1, t[2]).value;
      var p := HeadingAt(t).value;
      forall c | c in p.attrs ensures c != '>' {
        var j :| 0 <= j < |p.attrs| && p.attrs[j] == c;
        assert t[3 + j] == c;
      }
      forall c | c in p.text ensures !IsLineTerminator(c) {
        var j :| 0 <= j < |p.text| && p.text[j] == c;
        assert t[g + 1 + j] == c;
      }
    }
  }

  /** Whatever the pattern matches at the start of `t`, `HeadingAt` finds it, groups included. */
  lemma HeadingAtComplete(t: string, p: Parsed)
    requires IsHeadingMatch(t, p)
    ensures HeadingAt(t) == Some(p)
  {
    var g := 3 + |p.attrs|;
    var e := g + 1 + |p.text|;
    forall j | 3 <= j < g ensures t[j] != '>' {
      assert t[j] == p.attrs[j - 3];
      assert p.attrs[j - 3] in p.attrs;
    }
    assert FindChar(t, '>', 3) == Some(g);
    forall j | g + 1 <= j < e ensures !IsLineTerminator(t[j]) {
      assert t[j] == p.text[j - g - 1];
    }
    TextEndFinds(t, g + 1, e, p.level);
  }

  /** `headingPattern.exec(html)` with `lastIndex == from`; `FindHeadingSpec` states what it finds. */
  function FindHeading(html: string, from: nat): Option<HeadingMatch> {
    LeftmostInRange(html, HeadingAt, from);
    match Leftmost(html, HeadingAt, from)
    case None => None
    case Some(i) =>
      var p := HeadingAt(html[i..]).value;
      Some(HeadingMatch(i, i + p.length, html[i..i + p.length], p.level, p.attrs, p.text))
  }

  /** `m` is a match of the heading pattern at its place in `html`. */
  ghost predicate IsMatchIn(html: string, m: HeadingMatch) {
    m.start < m.end <= |html| && m.end == m.start + 9 + |m.attrs| + |m.text|
    && m.markup == html[m.start..m.end]
    && IsHeadingMatch(html[m.start..], Parsed(m.end - m.start, m.level, m.attrs, m.text))
  }

  /**
   * `exec` returns the leftmost match at or after the cursor, with its
   * groups, and `null` only when no heading starts there or later.
   */
  lemma FindHeadingSpec(html: string, from: nat)
    ensures FindHeading(html, from).Some? ==>
      var m := FindHeading(html, from).value;
      from <= m.start && IsMatchIn(html, m)
      && forall j :: from <= j < m.start ==> HeadingAt(html[j..]).None?
    ensures FindHeading(html, from).None? ==> forall j :: from <= j < |html| ==> HeadingAt(html[j..]).None?
  {
    LeftmostSpec(html, HeadingAt, from);
    if Leftmost(html, HeadingAt, from).Some? {
      HeadingAtSound(html[Leftmost(html, HeadingAt, from).value..]);
    }
  }

  /** The markup of a heading: `<h`, the level, the attributes, `>`, the text and the closing tag. */
  function Markup(h: char, level: char, attrs: string, text: string, h2: char): (r: string)
    ensures |r| == 9 + |attrs| + |text|
  {
    "<" + [h, level] + attrs + ">" + text + "</" + [h2, level] + ">"
  }

  /** No closing tag of the level starts inside `text`, whatever comes after it. */
  predicate NoCloseIn(text: string, level: char) {
    forall j :: 0 <= j < |text| ==> !ClosesAt(text + "<", j, level)
  }

  lemma ClosesAtSame(t: string, j: nat, u: string, k: nat, level: char)
    requires j + 5 <= |t| && k + 5 <= |u| && t[j..j + 5] == u[k..k + 5]
    ensures ClosesAt(t, j, level) == ClosesAt(u, k, level)
  {
    assert t[j] == u[k] && t[j + 1] == u[k + 1] && t[j + 2] == u[k + 2] by {
      assert t[j] == t[j..j + 5][0] && t[j + 1] == t[j..j + 5][1] && t[j + 2] == t[j..j + 5][2];
    }
    assert t[j + 3] == u[k + 3] && t[j + 4] == u[k + 4] by {
      assert t[j + 3] == t[j..j + 5][3] && t[j + 4] == t[j..j + 5][4];
    }
  }

  /** A closing tag cannot start inside the text and end inside the closing tag that follows it. */
  lemma NoStraddle(t: string, j: nat, e: nat, level: char)
    requires j < e < j + 5 && e < |t| && t[e] == '<' && IsLevel(level)
    ensures !ClosesAt(t, j, level)
  {
  }

  /** Markup of this shape, whatever follows it, is read back with the same groups. */
  lemma MarkupMatches(h: char, level: char, attrs: string, text: string, h2: char, rest: string)
    requires (h == 'h' || h == 'H') && (h2 == 'h' || h2 == 'H') && IsLevel(level)
    requires forall c :: c in attrs ==> c != '>'
    requires forall c :: c in text ==> !IsLineTerminator(c)
    requires NoCloseIn(text, level)
    ensures HeadingAt(Markup(h, level, attrs, text, h2) + rest) == Some(Parsed(9 + |attrs| + |text|, level, attrs, text))
  {
    var t := Markup(h, level, attrs, text, h2) + rest;
    var g := 3 + |attrs|;
    var e := g + 1 + |text|;
    assert t == "<" + [h, level] + attrs + ">" + (text + "<") + ("/" + [h2, level] + ">") + rest;
    assert t[0] == '<' && t[1] == h && t[2] == level;
    assert t[3..g] == attrs;
    assert t[g] == '>';
    assert t[g + 1..e + 1] == text + "<";
    assert t[g + 1..e] == text;
    assert t[e..e + 5] == "</" + [h2, level] + ">";
    assert ClosesAt(t, e, level) by {
      assert t[e + 1] == t[e..e + 5][1];
      assert t[e + 2] == t[e..e + 5][2];
      assert t[e + 3] == t[e..e + 5][3];
      assert t[e + 4] == t[e..e + 5][4];
    }
    forall j | g + 1 <= j < e ensures !ClosesAt(t, j, level) {
      var k := j - g - 1;
      if j + 5 <= e + 1 {
        assert t[j..j + 5] == (text + "<")[k..k + 5];
        ClosesAtSame(t, j, text + "<", k, level);
      } else {
        NoStraddle(t, j, e, level);
      }
    }
    HeadingAtComplete(t, Parsed(9 + |attrs| + |text|, level, attrs, text));
  }

  /** What the pattern matches is markup of that shape, read back from its groups. */
  lemma MatchIsMarkup(t: string, p: Parsed)
    requires IsHeadingMatch(t, p)
    ensures t[..p.length] == Markup(t[1], p.level, p.attrs, p.text, t[p.length - 3])
    ensures NoCloseIn(p.text, p.level)
  {
    var g := 3 + |p.attrs|;
    var e := g + 1 + |p.text|;
    assert t[..p.length] == t[..3] + t[3..g] + [t[g]] + t[g + 1..e] + t[e..e + 5];
    assert t[..3] == "<" + [t[1], p.level];
    assert t[e..e + 5] == "</" + [t[p.length - 3], p.level] + ">";
    forall j | 0 <= j < |p.text| ensures !ClosesAt(p.text + "<", j, p.level) {
      if j + 5 <= |p.text| + 1 {
        assert t[g + 1..e + 1] == p.text + "<";
        assert t[g + 1 + j..g + 1 + j + 5] == (p.text + "<")[j..j + 5];
        ClosesAtSame(t, g + 1 + j, p.text + "<", j, p.level);
      }
    }
  }

  /** An `id` attribute with the nonempty value `v` starts `t`. */
  predicate IsIdAttribute(t: string, v: string) {
    v != [] && (forall c :: c in v ==> c != '"') && |v| + 5 <= |t| && t[..|v| + 5] == "id=\"" + v + "\""
  }

  /** `id="([^"]+)"` tried at the start of `t`: the attribute's value. */
  function IdAt(t: string): (r: Option<string>)
    ensures r.Some? ==> IsIdAttribute(t, r.value)
  {
    if |t| < 4 || t[..4] != "id=\"" then None
    else match FindChar(t, '"', 4)
      case None => None
      case Some(q) =>
        if q == 4 then None
        else
          assert forall c :: c in t[4..q] ==> c != '"' by {
            forall c | c in t[4..q] ensures c != '"' {
              var j :| 0 <= j < q - 4 && t[4..q][j] == c;
              assert t[4 + j] == c;
            }
          }
          assert t[..q + 1] == t[..4] + t[4..q] + [t[q]];
          Some(t[4..q])
  }

  /** Every such attribute at the start of `t` is found, with its whole value. */
  lemma IdAtComplete(t: string, v: string)
    requires IsIdAttribute(t, v)
    ensures IdAt(t) == Some(v)
  {
    var q := 4 + |v|;
    assert t[..4] == t[..q + 1][..4];
    assert t[4..q] == t[..q + 1][4..q];
    forall j | 4 <= j < q ensures t[j] != '"' {
      assert t[j] == v[j - 4];
      assert v[j - 4] in v;
    }
    assert t[q] == t[..q + 1][q];
    assert FindChar(t, '"', 4) == Some(q);
  }

  /** No `id` attribute starts before position `i`. */
  ghost predicate NoIdBefore(attrs: string, i: nat) {
    forall j, v :: 0 <= j < i && j < |attrs| ==> !IsIdAttribute(attrs[j..], v)
  }

  /**
   * `attrs.match(/id="([^"]+)"/)`: the value of the leftmost `id` attribute
   * (`ExistingIdSpec`). Like the pattern, it also accepts the tail of a
   * longer name such as `data-id`.
   */
  function ExistingId(attrs: string): Option<string> {
    LeftmostInRange(attrs, IdAt, 0);
    match Leftmost(attrs, IdAt)
    case None => None
    case Some(i) => IdAt(attrs[i..])
  }

  /** The value found is that of the leftmost `id` attribute, and none is found only when there is none. */
  lemma ExistingIdSpec(attrs: string)
    ensures ExistingId(attrs).Some? ==>
      exists i :: 0 <= i < |attrs| && IsIdAttribute(attrs[i..], ExistingId(attrs).value) && NoIdBefore(attrs, i)
    ensures ExistingId(attrs).None? ==> NoIdBefore(attrs, |attrs|)
  {
    LeftmostSpec(attrs, IdAt, 0);
    match Leftmost(attrs, IdAt)
    case None =>
      forall j, v | 0 <= j < |attrs| ensures !IsIdAttribute(attrs[j..], v) {
        if IsIdAttribute(attrs[j..], v) {
          IdAtComplete(attrs[j..], v);
        }
      }
    case Some(i) =>
      forall j, v | 0 <= j < i && j < |attrs| ensures !IsIdAttribute(attrs[j..], v) {
        if IsIdAttribute(attrs[j..], v) {
          IdAtComplete(attrs[j..], v);
        }
      }
  }

  /** ` id="…"`, as the injected heading carries it before the original attributes. */
  function IdAttribute(id: string): string {
    " id=\"" + id + "\""
  }

  /** `<h${level} id="${id}"${attrs}>${text}</h${level}>` */
  function NewHeading(m: HeadingMatch, id: string): string {
    Markup('h', m.level, IdAttribute(id) + m.attrs, m.text, 'h')
  }

  /** A slug holds none of the characters that end an attribute, a tag or start a replacement pattern. */
  lemma SlugAvoids(text: string)
    ensures '"' !in Slug.Slug(text) && '>' !in Slug.Slug(text) && '$' !in Slug.Slug(text)
  {
    var id := Slug.Slug(text);
    forall c | c in id ensures c != '"' && c != '>' && c != '$' {
      assert IsSlugChar(c);
    }
  }

  /** A character that is not part of the tag syntax is in the markup only if it is in the attributes or the text. */
  lemma NotInMarkup(c: char, h: char, level: char, attrs: string, text: string, h2: char)
    requires c !in "</>" && c != h && c != h2 && c != level && c !in attrs && c !in text
    ensures c !in Markup(h, level, attrs, text, h2)
  {
    assert Markup(h, level, attrs, text, h2) == "<" + [h, level] + attrs + ">" + text + "</" + [h2, level] + ">";
  }

  /** The id of a heading: the value of its `id` attribute, or else the slug of its text. */
  function HeadingId(m: HeadingMatch): string {
    match ExistingId(m.attrs)
    case Some(v) => v
    case None => Slug.Slug(m.text)
  }

  /** `{ level, id, text: text.replace(/<[^>]+>/g, '') }` */
  function Entry(m: HeadingMatch): Heading {
    Heading(m.level, HeadingId(m), StripTags(m.text))
  }

  /**
   * The page after one heading is handled: unchanged when it has an id, and
   * otherwise with the first occurrence of the heading's markup replaced by
   * the markup carrying the new id.
   */
  function Inject(html: string, m: HeadingMatch): string {
    if ExistingId(m.attrs).Some? then html
    else ReplaceString(html, m.markup, NewHeading(m, Slug.Slug(m.text)))
  }

  /** Injection lengthens the page by ` id=""` and the slug, at most by six more than the text. */
  lemma InjectLength(html: string, from: nat, m: HeadingMatch)
    requires FindHeading(html, from) == Some(m)
    ensures from <= m.start && m.end == m.start + 9 + |m.attrs| + |m.text| && m.end <= |html|
    ensures |html| <= |Inject(html, m)| <= |html| + 6 + |m.text|
  {
    FindHeadingSpec(html, from);
    if ExistingId(m.attrs).None? {
      assert Occurs(html, m.markup, m.start);
    }
  }

  /**
   * The loop of `generateTOC` as a function of the page and the cursor: the
   * final page and the headings pushed. It terminates because every step
   * moves the cursor past the match, at least three characters further than
   * the injection lengthens the page.
   */
  function Scan(html: string, cursor: nat): (r: (string, seq<Heading>))
    decreases |html| - cursor
  {
    match FindHeading(html, cursor)
    case None => (html, [])
    case Some(m) =>
      InjectLength(html, cursor, m);
      var rest := Scan(Inject(html, m), m.end);
      (rest.0, [Entry(m)] + rest.1)
  }

  /** One turn of the loop: the entry of the heading found, then the scan of the updated page from the end of the match. */
  lemma ScanStep(html: string, cursor: nat, m: HeadingMatch)
    requires FindHeading(html, cursor) == Some(m)
    ensures m.end <= |Inject(html, m)|
    ensures |Inject(html, m)| - m.end < |html| - cursor
    ensures Scan(html, cursor) == (Scan(Inject(html, m), m.end).0, [Entry(m)] + Scan(Inject(html, m), m.end).1)
  {
    InjectLength(html, cursor, m);
  }

  /** One line of `tocHtml`. */
  function TocLine(h: Heading): string {
    "                <li><a href=\"#" + h.id + "\" class=\"toc-h" + [h.level] + "\">" + h.text + "</a></li>\n"
  }

  /** The lines `line` makes of the headings, joined in order. */
  function Lines(hs: seq<Heading>, line: Heading -> string): string {
    if hs == [] then "" else Lines(hs[..|hs| - 1], line) + line(hs[|hs| - 1])
  }

  /** `tocHtml` after the `forEach` over `headings`. */
  function TocList(hs: seq<Heading>): string {
    Lines(hs, TocLine)
  }

  /**
   * `generateTOC(html)`: the loop runs `exec` from the cursor, reuses or
   * makes each heading's id, writes a made id back into the page, and then
   * the table of contents is built line by line.
   */
  method GenerateToc(input: string) returns (html: string, tocHtml: string)
    ensures html == Scan(input, 0).0
    ensures tocHtml == TocList(Scan(input, 0).1)
  {
    html := input;
    var cursor: nat := 0;
    var headings: seq<Heading> := [];
    while true
      invariant cursor <= |html|
      invariant Scan(html, cursor).0 == Scan(input, 0).0
      invariant headings + Scan(html, cursor).1 == Scan(input, 0).1
      decreases |html| - cursor
    {
      var found := FindHeading(html, cursor);
      if found.None? {
        assert Scan(html, cursor) == (html, []);
        break;
      }
      var m := found.value;
      ScanStep(html, cursor, m);
      var page, entry := HandleHeading(html, m);
      html := page;
      headings := headings + [entry];
      cursor := m.end;
    }
    assert headings == Scan(input, 0).1;
    tocHtml := BuildTocHtml(headings);
  }

  /**
   * The body of the loop for one match: the id from the attributes, or else
   * the slug written back into the page, and the entry pushed onto `headings`.
   */
  method HandleHeading(html: string, m: HeadingMatch) returns (page: string, entry: Heading)
    ensures page == Inject(html, m) && entry == Entry(m)
  {
    var id: string;
    var idMatch := ExistingId(m.attrs);
    page := html;
    if idMatch.Some? {
      id := idMatch.value;
    } else {
      id := Slug.Slug(m.text);
      page := ReplaceString(html, m.markup, NewHeading(m, id));
    }
    entry := Heading(m.level, id, StripTags(m.text));
  }

  /** The `forEach` that appends one line per heading to `tocHtml`. */
  method BuildTocHtml(headings: seq<Heading>) returns (tocHtml: string)
    ensures tocHtml == TocList(headings)
  {
    tocHtml := "";
    for i := 0 to |headings|
      invariant tocHtml == TocList(headings[..i])
    {
      assert headings[..i + 1][..i] == headings[..i];
      tocHtml := tocHtml + TocLine(headings[i]);
    }
    assert headings[..|headings|] == headings;
  }

  /** The same lines, joined from the front: the first heading's line, then the lines of the others. */
  function LinesFromFront(hs: seq<Heading>, line: Heading -> string): string {
    if hs == [] then "" else line(hs[0]) + LinesFromFront(hs[1..], line)
  }

  lemma LinesSnoc(hs: seq<Heading>, h: Heading, line: Heading -> string)
    ensures Lines(hs + [h], line) == Lines(hs, line) + line(h)
  {
    assert (hs + [h])[..|hs|] == hs;
  }

  /** Joining lines distributes over concatenating the lists of headings. */
  lemma {:induction false} LinesAppend(a: seq<Heading>, b: seq<Heading>, line: Heading -> string)
    ensures Lines(a + b, line) == Lines(a, line) + Lines(b, line)
    decreases |b|
  {
    if b == [] {
      assert a + b == a;
    } else {
      var c := b[..|b| - 1];
      var h := b[|b| - 1];
      assert b == c + [h];
      assert a + b == (a + c) + [h];
      LinesAppend(a, c, line);
      LinesSnoc(a + c, h, line);
      LinesSnoc(c, h, line);
    }
  }

  /** Joining from the end, as the `forEach` does, and joining from the front give the same text. */
  lemma {:induction false} LinesFromEitherEnd(hs: seq<Heading>, line: Heading -> string)
    ensures Lines(hs, line) == LinesFromFront(hs, line)
    decreases |hs|
  {
    if hs != [] {
      LinesAppend([hs[0]], hs[1..], line);
      assert [hs[0]] + hs[1..] == hs;
      LinesSnoc([], hs[0], line);
      assert [] + [hs[0]] == [hs[0]];
      LinesFromEitherEnd(hs[1..], line);
    }
  }

  /** `tocHtml` is one line per heading, in the order of `headings`. */
  lemma TocListLines(a: seq<Heading>, b: seq<Heading>)
    ensures TocList([]) == ""
    ensures TocList(a + b) == TocList(a) + TocList(b)
    ensures a != [] ==> TocList(a) == TocLine(a[0]) + TocList(a[1..])
  {
    LinesAppend(a, b, TocLine);
    if a != [] {
      LinesFromEitherEnd(a, TocLine);
      LinesFromEitherEnd(a[1..], TocLine);
    }
  }

  /**
   * An entry whose link is well formed: a level of 1 to 3, an id that
   * cannot close the `href` attribute, and text on one line with every
   * tag removed.
   */
  predicate WellFormedEntry(h: Heading) {
    IsLevel(h.level)
    && (forall c :: c in h.id ==> c != '"')
    && (forall c :: c in h.text ==> !IsLineTerminator(c))
    && HasNoTag(h.text)
  }

  /** Every entry made from a match is well formed. */
  lemma EntryWellFormed(html: string, m: HeadingMatch)
    requires IsMatchIn(html, m)
    ensures WellFormedEntry(Entry(m))
  {
    ExistingIdSpec(m.attrs);
    StripTagsLeavesNoTag(m.text);
    SubsequenceChars(StripTags(m.text), m.text);
  }

  /** Every entry the scan pushes is well formed. */
  lemma {:induction false} ScanEntriesWellFormed(html: string, cursor: nat)
    ensures forall h :: h in Scan(html, cursor).1 ==> WellFormedEntry(h)
    decreases |html| - cursor
  {
    match FindHeading(html, cursor)
    case None =>
    case Some(m) =>
      InjectLength(html, cursor, m);
      FindHeadingSpec(html, cursor);
      EntryWellFormed(html, m);
      ScanEntriesWellFormed(Inject(html, m), m.end);
  }

  /** The headings `exec` meets in a page that is never changed. */
  function AllMatches(html: string, cursor: nat): seq<HeadingMatch>
    decreases |html| - cursor
  {
    FindHeadingSpec(html, cursor);
    match FindHeading(html, cursor)
    case None => []
    case Some(m) => [m] + AllMatches(html, m.end)
  }

  function Entries(ms: seq<HeadingMatch>): seq<Heading> {
    seq(|ms|, i requires 0 <= i < |ms| => Entry(ms[i]))
  }

  lemma EntriesCons(m: HeadingMatch, ms: seq<HeadingMatch>)
    ensures Entries([m] + ms) == [Entry(m)] + Entries(ms)
  {
  }

  /**
   * When every heading carries an `id`, the page comes back unchanged and
   * there is one entry per heading, in document order, each with the id
   * taken verbatim from the attribute.
   */
  lemma {:induction false} ScanWithIds(html: string, cursor: nat)
    requires forall m :: m in AllMatches(html, cursor) ==> ExistingId(m.attrs).Some?
    ensures Scan(html, cursor) == (html, Entries(AllMatches(html, cursor)))
    decreases |html| - cursor
  {
    FindHeadingSpec(html, cursor);
    match FindHeading(html, cursor)
    case None =>
      assert Entries([]) == [];
    case Some(m) =>
      var rest := AllMatches(html, m.end);
      assert AllMatches(html, cursor) == [m] + rest;
      assert m in AllMatches(html, cursor);
      assert Inject(html, m) == html;
      ScanStep(html, cursor, m);
      assert forall k :: k in rest ==> k in AllMatches(html, cursor);
      ScanWithIds(html, m.end);
      EntriesCons(m, rest);
  }

  /** In that case each entry's id is the value of its heading's `id` attribute. */
  lemma ScanWithIdsKeepsIds(html: string, cursor: nat, i: nat)
    requires forall m :: m in AllMatches(html, cursor) ==> ExistingId(m.attrs).Some?
    requires i < |AllMatches(html, cursor)|
    ensures i < |Scan(html, cursor).1|
    ensures Scan(html, cursor).1[i].id == ExistingId(AllMatches(html, cursor)[i].attrs).value
  {
    ScanWithIds(html, cursor);
    assert AllMatches(html, cursor)[i] in AllMatches(html, cursor);
  }

  /** The markup of `m`, as long as its groups make it, sits at its place in `html`. */
  predicate MarkupAt(html: string, m: HeadingMatch) {
    |m.markup| == 9 + |m.attrs| + |m.text| && m.end == m.start + |m.markup| <= |html|
    && html[m.start..m.end] == m.markup
  }

  /**
   * A heading without an `id`: the first occurrence of its markup, at or
   * before the heading itself, is replaced by the markup carrying the new id.
   */
  lemma InjectShape(html: string, m: HeadingMatch)
    requires MarkupAt(html, m) && ExistingId(m.attrs).None?
    ensures IndexOf(html, m.markup).Some?
    ensures var p := IndexOf(html, m.markup).value;
      p <= m.start && (forall q: nat :: q < p ==> !Occurs(html, m.markup, q))
      && Inject(html, m) == html[..p] + NewHeading(m, Slug.Slug(m.text)) + html[p + |m.markup|..]
  {
    assert Occurs(html, m.markup, m.start);
  }

  /** When no copy of the markup comes earlier, the heading found is the one that receives the id. */
  lemma InjectAtScannedHeading(html: string, m: HeadingMatch)
    requires MarkupAt(html, m) && ExistingId(m.attrs).None?
    requires forall q: nat :: q < m.start ==> !Occurs(html, m.markup, q)
    ensures Inject(html, m) == html[..m.start] + NewHeading(m, Slug.Slug(m.text)) + html[m.end..]
  {
    InjectShape(html, m);
  }

  /**
   * When an identical heading comes earlier, that copy receives the id and
   * the heading found keeps its markup without one, only shifted right by
   * the length of ` id="…"`.
   */
  lemma InjectMissesScannedHeading(html: string, m: HeadingMatch, q: nat)
    requires MarkupAt(html, m) && ExistingId(m.attrs).None?
    requires Occurs(html, m.markup, q) && q + |m.markup| <= m.start
    ensures var d := |IdAttribute(Slug.Slug(m.text))|;
      m.end + d <= |Inject(html, m)| && Inject(html, m)[m.start + d..m.end + d] == m.markup
  {
    InjectShape(html, m);
    var p := IndexOf(html, m.markup).value;
    var n := NewHeading(m, Slug.Slug(m.text));
    assert |n| == |m.markup| + |IdAttribute(Slug.Slug(m.text))|;
    SplicedCopy(html, Inject(html, m), p, n, m.markup, m.start);
  }

  /**
   * When the occurrence at `p` is replaced by `n`, a later copy of the
   * pattern at `k` moves right by the difference of the lengths.
   */
  lemma SplicedCopy(s: string, r: string, p: nat, n: string, pat: string, k: nat)
    requires p + |pat| <= k && k + |pat| <= |s| && |pat| <= |n|
    requires r == s[..p] + n + s[p + |pat|..] && s[k..k + |pat|] == pat
    ensures k + |n| <= |r| && r[k + |n| - |pat|..k + |n|] == pat
  {
    var d := |n| - |pat|;
    forall j | k <= j < k + |pat| ensures r[j + d] == s[j] {
      assert r[j + d] == s[p + |pat|..][j - p - |pat|];
    }
    assert r[k + d..k + |n|] == s[k..k + |pat|];
  }

  /** ` id="…"` followed by attributes without `>` has no `>` when the id has none. */
  lemma NoCloseInAttributes(id: string, attrs: string)
    requires forall c :: c in id ==> c != '>'
    requires forall c :: c in attrs ==> c != '>'
    ensures forall c :: c in IdAttribute(id) + attrs ==> c != '>'
  {
  }

  /**
   * The markup written back is a heading the pattern reads again with the
   * same level and text and with ` id="…"` put before the original
   * attributes, whatever follows it.
   */
  lemma NewHeadingReparses(m: HeadingMatch, id: string, rest: string)
    requires GroupsOfMatch(m)
    requires forall c :: c in id ==> c != '>'
    ensures HeadingAt(NewHeading(m, id) + rest)
      == Some(Parsed(|NewHeading(m, id)|, m.level, IdAttribute(id) + m.attrs, m.text))
  {
    NoCloseInAttributes(id, m.attrs);
    MarkupMatches('h', m.level, IdAttribute(id) + m.attrs, m.text, 'h', rest);
  }

  /** What the groups of any match satisfy: a level, attributes without `>`, and a one-line text in which no closing tag of the level starts. */
  predicate GroupsOfMatch(m: HeadingMatch) {
    IsLevel(m.level) && NoCloseIn(m.text, m.level)
    && (forall c :: c in m.attrs ==> c != '>') && (forall c :: c in m.text ==> !IsLineTerminator(c))
  }

  /** The groups of every match have that shape. */
  lemma MatchGroups(html: string, m: HeadingMatch)
    requires IsMatchIn(html, m)
    ensures GroupsOfMatch(m)
  {
    MatchIsMarkup(html[m.start..], Parsed(m.end - m.start, m.level, m.attrs, m.text));
  }

  /** The injected attribute is the one `attrs.match(/id="([^"]+)"/)` finds first. */
  lemma InjectedIdIsFound(id: string, attrs: string)
    requires id != [] && forall c :: c in id ==> c != '"'
    ensures ExistingId(IdAttribute(id) + attrs) == Some(id)
  {
    var a := IdAttribute(id) + attrs;
    assert a[1..] == "id=\"" + id + "\"" + attrs;
    assert a[1..][..|id| + 5] == "id=\"" + id + "\"";
    IdAtComplete(a[1..], id);
    assert IdAt(a[0..]).None? by {
      assert a[0..][0] == ' ';
    }
    assert Leftmost(a, IdAt, 1) == Some(1);
    assert Leftmost(a, IdAt, 0) == Some(1);
  }

  /**
   * A heading that gets a nonempty slug reads back, after the injection, as
   * a heading whose entry is the same: a second scan keeps the id it made.
   */
  lemma InjectedHeadingKeepsEntry(html: string, m: HeadingMatch)
    requires IsMatchIn(html, m) && ExistingId(m.attrs).None?
    requires Slug.Slug(m.text) != []
    ensures var n := NewHeading(m, Slug.Slug(m.text));
      Entry(HeadingMatch(0, |n|, n, m.level, IdAttribute(Slug.Slug(m.text)) + m.attrs, m.text)) == Entry(m)
  {
    var id := Slug.Slug(m.text);
    assert forall c :: c in id ==> c != '"' by {
      forall c | c in id ensures c != '"' {
        assert IsSlugChar(c);
      }
    }
    InjectedIdIsFound(id, m.attrs);
    assert HeadingId(m) == id;
  }

  /*
   * The id injection as written: `html.replace(match[0], newHeading)` reads
   * `newHeading` as a replacement pattern, so a `$&` in a heading's text
   * puts the whole matched heading back into the page. The functions above
   * model the evidently intended literal replacement.
   */

  /** The page after one heading, as the code computes it. */
  function InjectAsWritten(html: string, m: HeadingMatch): string {
    if ExistingId(m.attrs).Some? then html
    else ReplaceStringJs(html, m.markup, NewHeading(m, Slug.Slug(m.text)))
  }

  /** Without `$` in the heading, the code as written and the literal replacement agree. */
  lemma InjectAsWrittenWithoutDollar(html: string, m: HeadingMatch)
    requires IsMatchIn(html, m)
    requires '$' !in m.attrs && '$' !in m.text
    ensures InjectAsWritten(html, m) == Inject(html, m)
  {
    if ExistingId(m.attrs).None? {
      var id := Slug.Slug(m.text);
      SlugAvoids(m.text);
      assert '$' !in IdAttribute(id) + m.attrs;
      assert IsLevel(m.level);
      NotInMarkup('$', 'h', m.level, IdAttribute(id) + m.attrs, m.text, 'h');
      ReplaceStringJsLiteral(html, m.markup, NewHeading(m, id));
    }
  }

  /** One turn of the loop as written: the next page and cursor, or none when `exec` finds nothing. */
  function StepAsWritten(html: string, cursor: nat): Option<(string, nat)> {
    match FindHeading(html, cursor)
    case None => None
    case Some(m) => Some((InjectAsWritten(html, m), m.end))
  }

  /** The page and cursor after `n` turns of a loop whose turn is `step`, or none when it has stopped before. */
  function Run(step: (string, nat) -> Option<(string, nat)>, html: string, cursor: nat, n: nat): Option<(string, nat)>
    decreases n
  {
    if n == 0 then Some((html, cursor))
    else match step(html, cursor)
      case None => None
      case Some((h, c)) => Run(step, h, c, n - 1)
  }

  /** The page and cursor after `n` turns of the loop as written. */
  function RunAsWritten(html: string, cursor: nat, n: nat): Option<(string, nat)> {
    Run(StepAsWritten, html, cursor, n)
  }

  /** The headings `headings.push` collects in the first `n` turns of the loop as written. */
  function PushedAsWritten(html: string, cursor: nat, n: nat): seq<Heading>
    decreases n
  {
    if n == 0 then []
    else match FindHeading(html, cursor)
      case None => []
      case Some(m) => [Entry(m)] + PushedAsWritten(InjectAsWritten(html, m), m.end, n - 1)
  }

  /**
   * On a page without `$` the loop as written is the scan: after one turn
   * per entry it has reached the scan's page and pushed the scan's entries,
   * and the next `exec` finds nothing, so the loop stops there.
   */
  lemma {:induction false} AsWrittenAgreesWithoutDollar(html: string, cursor: nat)
    requires '$' !in html
    ensures var n := |Scan(html, cursor).1|;
      RunAsWritten(html, cursor, n).Some? && RunAsWritten(html, cursor, n).value.0 == Scan(html, cursor).0
      && RunAsWritten(html, cursor, n + 1).None?
      && PushedAsWritten(html, cursor, n) == Scan(html, cursor).1
      && PushedAsWritten(html, cursor, n + 1) == Scan(html, cursor).1
    decreases |html| - cursor
  {
    FindHeadingSpec(html, cursor);
    match FindHeading(html, cursor)
    case None =>
      assert Scan(html, cursor) == (html, []);
    case Some(m) =>
      ScanStep(html, cursor, m);
      NoDollarInGroups(html, m);
      InjectAsWrittenWithoutDollar(html, m);
      NoDollarAfterInject(html, m);
      assert StepAsWritten(html, cursor) == Some((Inject(html, m), m.end));
      AsWrittenAgreesWithoutDollar(Inject(html, m), m.end);
  }

  /** A character that is not in the page is in no group of a match. */
  lemma NoDollarInGroups(html: string, m: HeadingMatch)
    requires IsMatchIn(html, m) && '$' !in html
    ensures '$' !in m.attrs && '$' !in m.text
  {
    var t := html[m.start..];
    MatchIsMarkup(t, Parsed(m.end - m.start, m.level, m.attrs, m.text));
    var mk := t[..m.end - m.start];
    assert mk == html[m.start..m.end];
    assert mk == "<" + [t[1], m.level] + m.attrs + ">" + m.text + "</" + [t[m.end - m.start - 3], m.level] + ">";
    assert '$' !in mk by {
      forall k | 0 <= k < |mk| ensures mk[k] != '$' {
        assert mk[k] == html[m.start + k];
      }
    }
  }

  /** The literal write-back brings in no `$`: the new markup is made of the groups, the slug and tag syntax. */
  lemma NoDollarAfterInject(html: string, m: HeadingMatch)
    requires IsMatchIn(html, m) && '$' !in html
    ensures '$' !in Inject(html, m)
  {
    if ExistingId(m.attrs).None? {
      var id := Slug.Slug(m.text);
      NoDollarInGroups(html, m);
      SlugAvoids(m.text);
      assert IsLevel(m.level);
      NotInMarkup('$', 'h', m.level, IdAttribute(id) + m.attrs, m.text, 'h');
      match IndexOf(html, m.markup)
      case None =>
      case Some(i) =>
        var a, b := html[..i], html[i + |m.markup|..];
        assert '$' !in a by {
          forall k | 0 <= k < |a| ensures a[k] != '$' { assert a[k] == html[k]; }
        }
        assert '$' !in b by {
          forall k | 0 <= k < |b| ensures b[k] != '$' { assert b[k] == html[i + |m.markup| + k]; }
        }
    }
  }

  /** `<h1 id="x">x`: what each turn leaves before the cursor. */
  const Opened: string := "<h1 id=\"x\">x"
  /** `<h1>x$&</h1>`: the heading that makes the loop run forever. */
  const Looping: string := "<h1>x$&</h1>"
  /** `</h1>`: what each turn leaves after the copy. */
  const Closed: string := "</h1>"

  /** `k` copies of `<h1 id="x">x`. */
  function Openings(k: nat): (r: string)
    ensures |r| == 12 * k
  {
    if k == 0 then "" else Openings(k - 1) + Opened
  }

  /** `k` copies of `</h1>`. */
  function Closings(k: nat): (r: string)
    ensures |r| == 5 * k
  {
    if k == 0 then "" else Closings(k - 1) + Closed
  }

  /** The page after `k` turns on `<h1>x$&</h1>`: `k` opened headings, the copy, `k` closing tags. */
  function LoopState(k: nat): string {
    Openings(k) + Looping + Closings(k)
  }

  lemma {:induction false} OpeningsChar(k: nat, j: nat)
    requires j < 12 * k
    ensures Openings(k)[j] == Opened[j % 12]
    decreases k
  {
    var prev := Openings(k - 1);
    if j < 12 * (k - 1) {
      OpeningsChar(k - 1, j);
    } else {
      assert Openings(k)[j] == Opened[j - 12 * (k - 1)];
    }
  }

  /** `<h1>x$&</h1>` first occurs in the page after the `k` opened headings. */
  lemma {:induction false} LoopingFirstAt(k: nat)
    ensures IndexOf(LoopState(k), Looping) == Some(12 * k)
  {
    var html := LoopState(k);
    var pre := Openings(k);
    assert html[..12 * k] == pre;
    assert Occurs(html, Looping, 12 * k) by {
      assert html[12 * k..12 * k + 12] == Looping;
    }
    forall q: nat | q < 12 * k ensures !Occurs(html, Looping, q) {
      if Occurs(html, Looping, q) {
        assert html[q] == '<' by {
          assert html[q..q + 12][0] == Looping[0];
        }
        OpeningsChar(k, q);
        assert q % 12 == 0;
        assert html[q + 3] == '>' by {
          assert html[q..q + 12][3] == Looping[3];
        }
        OpeningsChar(k, q + 3);
        assert false;
      }
    }
  }

  /** `exec` from the cursor finds the copy of `<h1>x$&</h1>`. */
  lemma LoopingFound(k: nat)
    ensures FindHeading(LoopState(k), 12 * k)
      == Some(HeadingMatch(12 * k, 12 * k + 12, Looping, '1', "", "x$&"))
  {
    var html := LoopState(k);
    var post := Closings(k);
    assert |Opened| == 12 && |Looping| == 12;
    SplitAfter(Openings(k), Looping, post);
    LoopingParsed(post);
    FoundAtCursor(html, 12 * k);
  }

  /** `<h1>x$&</h1>` is read as a level-1 heading without attributes, whatever follows it. */
  lemma LoopingParsed(rest: string)
    ensures HeadingAt(Looping + rest) == Some(Parsed(12, '1', "", "x$&"))
  {
    assert Looping == Markup('h', '1', "", "x$&", 'h');
    assert NoCloseIn("x$&", '1');
    MarkupMatches('h', '1', "", "x$&", 'h', rest);
  }

  lemma SplitAfter(a: string, b: string, c: string)
    ensures (a + b + c)[|a|..] == b + c && (a + b + c)[|a|..|a| + |b|] == b
  {
  }

  /** A heading that starts at the cursor is the one `exec` finds. */
  lemma FoundAtCursor(html: string, i: nat)
    requires i < |html| && HeadingAt(html[i..]).Some?
    ensures var p := HeadingAt(html[i..]).value;
      FindHeading(html, i) == Some(HeadingMatch(i, i + p.length, html[i..i + p.length], p.level, p.attrs, p.text))
  {
    assert Leftmost(html, HeadingAt, i) == Some(i);
  }

  /** The id injection on that page, as written, puts the copy back between the new opened heading and its closing tag. */
  lemma LoopingInject(k: nat)
    ensures InjectAsWritten(LoopState(k), HeadingMatch(12 * k, 12 * k + 12, Looping, '1', "", "x$&")) == LoopState(k + 1)
  {
    LoopingInjectPage(k, HeadingMatch(12 * k, 12 * k + 12, Looping, '1', "", "x$&"));
    LoopStateNext(k);
  }

  lemma LoopingInjectPage(k: nat, m: HeadingMatch)
    requires m == HeadingMatch(12 * k, 12 * k + 12, Looping, '1', "", "x$&")
    ensures InjectAsWritten(LoopState(k), m) == Openings(k) + (Opened + Looping + Closed) + Closings(k)
  {
    LoopingFirstAt(k);
    assert |Opened| == 12;
    LoopingCopied(Openings(k), Closings(k), m);
  }

  lemma LoopStateNext(k: nat)
    ensures LoopState(k + 1) == Openings(k) + (Opened + Looping + Closed) + Closings(k)
  {
    ClosingsFront(k);
    assert LoopState(k + 1) == (Openings(k) + Opened) + Looping + (Closed + Closings(k));
  }

  /** Wherever `<h1>x$&</h1>` first occurs, the injection as written puts it back between `<h1 id="x">x` and `</h1>`. */
  lemma LoopingCopied(pre: string, post: string, m: HeadingMatch)
    requires m.start == |pre| && m.markup == Looping && m.level == '1' && m.attrs == "" && m.text == "x$&"
    requires IndexOf(pre + Looping + post, Looping) == Some(|pre|)
    ensures InjectAsWritten(pre + Looping + post, m) == pre + (Opened + Looping + Closed) + post
  {
    var html := pre + Looping + post;
    LoopingParts(m);
    AsWrittenReplaces(html, m);
    ReplaceStringJsAt(html, m.markup, NewHeading(m, Slug.Slug(m.text)), |pre|);
    SplitThree(pre, Looping, post);
    LoopingSubstitution(pre, post);
  }

  lemma SplitThree(a: string, b: string, c: string)
    ensures (a + b + c)[..|a|] == a && (a + b + c)[|a| + |b|..] == c
  {
  }

  /** Without an `id`, the injection as written is JavaScript's replace of the markup by the new heading. */
  lemma AsWrittenReplaces(html: string, m: HeadingMatch)
    requires ExistingId(m.attrs).None?
    ensures InjectAsWritten(html, m) == ReplaceStringJs(html, m.markup, NewHeading(m, Slug.Slug(m.text)))
  {
  }

  /** `$&` in the new markup brings the heading back between the new opened heading and its closing tag. */
  lemma LoopingSubstitution(before: string, after: string)
    ensures Substitution(Opened + ("$&" + Closed), Looping, before, after) == Opened + Looping + Closed
  {
    SubstitutionPrefix(Opened, "$&" + Closed, Looping, before, after);
    SubstitutionMatched(Closed, Looping, before, after);
    SubstitutionWithoutDollar(Closed, Looping, before, after);
  }

  /** Each turn on that page re-inserts the copy at the cursor and moves the cursor past the new opened heading only. */
  lemma {:induction false} LoopingStep(k: nat)
    ensures StepAsWritten(LoopState(k), 12 * k) == Some((LoopState(k + 1), 12 * (k + 1)))
  {
    var m := HeadingMatch(12 * k, 12 * k + 12, Looping, '1', "", "x$&");
    LoopingFound(k);
    LoopingInject(k);
    assert m.end == 12 * (k + 1);
  }

  lemma {:induction false} ClosingsFront(k: nat)
    ensures Closings(k + 1) == Closed + Closings(k)
    decreases k
  {
    if k > 0 {
      ClosingsFront(k - 1);
    }
  }

  /**
   * On the page `<h1>x$&</h1>` the loop as written never stops: after any
   * number of turns `exec` still finds a heading.
   */
  lemma AsWrittenNeverStops(k: nat, n: nat)
    ensures RunAsWritten(LoopState(k), 12 * k, n) == Some((LoopState(k + n), 12 * (k + n)))
  {
    var state: nat -> string := LoopState;
    var cursor: nat -> nat := LoopCursor;
    forall i: nat ensures StepAsWritten(state(i), cursor(i)) == Some((state(i + 1), cursor(i + 1))) {
      LoopingStep(i);
    }
    RunAlongSteps(StepAsWritten, state, cursor, k, n);
    assert state(k) == LoopState(k) && cursor(k) == 12 * k;
    assert state(k + n) == LoopState(k + n) && cursor(k + n) == 12 * (k + n);
  }

  /** The cursor after `k` turns on `<h1>x$&</h1>`: just past the `k` opened headings. */
  function LoopCursor(k: nat): nat {
    12 * k
  }

  /** States each of which steps to the next: a run of `n` turns from state `k` reaches state `k + n`. */
  lemma {:induction false} RunAlongSteps(step: (string, nat) -> Option<(string, nat)>, state: nat -> string, cursor: nat -> nat, k: nat, n: nat)
    requires forall i: nat :: step(state(i), cursor(i)) == Some((state(i + 1), cursor(i + 1)))
    ensures Run(step, state(k), cursor(k), n) == Some((state(k + n), cursor(k + n)))
    decreases n
  {
    if n > 0 {
      RunAlongSteps(step, state, cursor, k + 1, n - 1);
      assert step(state(k), cursor(k)) == Some((state(k + 1), cursor(k + 1)));
    }
  }

  /**
   * The literal replacement stops on that page after one heading, which
   * receives the id `x` and its text intact.
   */
  lemma ScanStopsOnLooping(html: string)
    requires html == Looping
    ensures Scan(html, 0).0 == Opened + "$&" + Closed
    ensures Scan(html, 0).1 == [Heading('1', "x", "x$&")]
  {
    var m := HeadingMatch(0, 12, Looping, '1', "", "x$&");
    LoopingFound(0);
    assert LoopState(0) == html;
    ScanStep(html, 0, m);
    LoopingInjectLiteral(m);
    var page := Inject(html, m);
    NoHeadingAfterCursor(page);
    LoopingEntry(m);
    var rest := Scan(page, 12);
    assert Scan(html, 0) == (rest.0, [Entry(m)] + rest.1);
    assert rest == (page, []);
  }

  lemma LoopingInjectLiteral(m: HeadingMatch)
    requires m == HeadingMatch(0, 12, Looping, '1', "", "x$&")
    ensures Inject(Looping, m) == Opened + "$&" + Closed
  {
    LoopingParts(m);
    assert Occurs(Looping, Looping, 0);
    assert IndexOf(Looping, Looping) == Some(0);
  }

  /** The pieces of the injection for `<h1>x$&</h1>`: no id, the slug `x`, and the new markup. */
  lemma LoopingParts(m: HeadingMatch)
    requires m.markup == Looping && m.level == '1' && m.attrs == "" && m.text == "x$&"
    ensures ExistingId(m.attrs).None? && Slug.Slug(m.text) == "x"
    ensures NewHeading(m, Slug.Slug(m.text)) == Opened + ("$&" + Closed)
  {
    NoIdInEmpty(m.attrs);
    SlugDropsPunctuation(m.text);
    LoopingNewHeading(m, Slug.Slug(m.text));
  }

  lemma NoIdInEmpty(attrs: string)
    requires attrs == ""
    ensures ExistingId(attrs).None?
  {
    assert Leftmost(attrs, IdAt, 0).None?;
  }

  lemma LoopingNewHeading(m: HeadingMatch, id: string)
    requires m.level == '1' && m.attrs == "" && m.text == "x$&" && id == "x"
    ensures NewHeading(m, id) == Opened + ("$&" + Closed)
  {
  }

  lemma LoopingEntry(m: HeadingMatch)
    requires m == HeadingMatch(0, 12, Looping, '1', "", "x$&")
    ensures Entry(m) == Heading('1', "x", "x$&")
  {
    LoopingParts(m);
    StripTagsWithoutTag(m.text);
  }

  /** In `<h1 id="x">x$&</h1>` no heading starts after the text's first character. */
  lemma NoHeadingAfterCursor(n: string)
    requires n == Opened + "$&" + Closed
    ensures Scan(n, 12) == (n, [])
  {
    forall j | 12 <= j < |n| ensures HeadingAt(n[j..]).None? {
      assert n[j..][0] == n[j];
      if j == 14 {
        assert n[j..][1] == '/';
      }
    }
    LeftmostSpec(n, HeadingAt, 12);
  }
}

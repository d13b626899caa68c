/**
 * `fixImageUrls`: two global replaces in a row. The first points the image
 * of every part header at the local logo; the second puts the site's host
 * in front of every `/images/` source. Neither pattern has the `i` flag.
 */
module Images {
  import opened Text
  import opened Scanner
  import opened Regex

  /**
   * `(<div class="starc-part-header">[\s\S]*?<img[^>]*src=")([^"]+)(")`:
   * group 1 ends with element 4, group 2 with element 6, group 3 with element 7.
   */
  const LogoPattern: seq<Elem> :=
    [Lit(PartHeader), Lazy(AnyChar), Lit("<img"), Greedy(NotChar('>')), Lit("src=\""),
     One(NotChar('"')), Greedy(NotChar('"')), Lit("\"")]

  /** What has to follow the lazy body: the image tag up to the end of its quoted source. */
  const LogoImage: seq<Elem> :=
    [Lit("<img"), Greedy(NotChar('>')), Lit("src=\""), One(NotChar('"')), Greedy(NotChar('"')), Lit("\"")]

  const LocalLogo: string := "/img/logo2.svg"

  /** The engine's match of the logo pattern at the start of `u`. */
  function LogoMatch(u: string): Option<seq<nat>> {
    Run(LogoPattern, u, 0, false)
  }

  /** The positions of a logo match grow, the header is the first element, and the source is not empty. */
  lemma LogoShape(u: string)
    requires LogoMatch(u).Some?
    ensures var r := LogoMatch(u).value;
      |r| == 8 && r[0] == |PartHeader| && r[0] <= r[3] && r[3] + 5 == r[4] < r[6] && r[6] + 1 == r[7] <= |u|
  {
    var r := LogoMatch(u).value;
    RunSound(LogoPattern, u, 0, false);
    MatchesOrdered(LogoPattern, u, 0, r, false);
    assert ElemMatches(LogoPattern[0], u, 0, r[0], false);
    assert ElemMatches(LogoPattern[4], u, r[3], r[4], false);
    assert ElemMatches(LogoPattern[5], u, r[4], r[5], false);
    assert ElemMatches(LogoPattern[7], u, r[6], r[7], false);
  }

  /** `'$1/img/logo2.svg$3'`: group 1, the local logo's path, group 3. */
  function LogoAt(u: string): Option<(nat, string)> {
    match LogoMatch(u)
    case None => None
    case Some(r) =>
      LogoShape(u);
      Some((r[7], u[..r[4]] + LocalLogo + u[r[6]..r[7]]))
  }

  lemma LogoConsumes()
    ensures Consumes(LogoAt)
  {
    forall u | LogoAt(u).Some? ensures 0 < LogoAt(u).value.0 <= |u| {
      LogoShape(u);
    }
  }

  /** The first replace of `fixImageUrls`. */
  function FixLogos(html: string): string {
    LogoConsumes();
    ReplaceAll(html, LogoAt)
  }

  /**
   * A logo match starts with the part header and ends with the quoted
   * source of an image tag; its replacement keeps everything up to and
   * including `src="` and the closing quote, and puts the local logo's path
   * in place of the old source, which is the whole quoted value.
   */
  lemma LogoReplacesSource(u: string)
    requires LogoMatch(u).Some?
    ensures var r := LogoMatch(u).value;
      |r| == 8 && r[3] + 5 == r[4] < r[6] && r[6] + 1 == r[7] <= |u|
      && StartsWith(u, PartHeader)
      && u[r[3]..r[4]] == "src=\""
      && (forall k :: r[4] <= k < r[6] ==> u[k] != '"') && u[r[6]] == '"'
      && LogoAt(u) == Some((r[7], u[..r[4]] + LocalLogo + "\""))
  {
    var r := LogoMatch(u).value;
    LogoShape(u);
    RunSound(LogoPattern, u, 0, false);
    assert ElemMatches(LogoPattern[0], u, 0, r[0], false);
    assert ElemMatches(LogoPattern[4], u, r[3], r[4], false);
    assert ElemMatches(LogoPattern[5], u, r[4], r[5], false);
    assert ElemMatches(LogoPattern[6], u, r[5], r[6], false);
    assert ElemMatches(LogoPattern[7], u, r[6], r[7], false);
    assert u[..|PartHeader|] == PartHeader;
    assert u[r[3]..r[4]] == "src=\"";
    assert u[r[6]..r[7]] == "\"";
  }

  /**
   * The lazy body stops at the first `<img` after the header whose tag has
   * a quoted `src` source: from no earlier position does the image part of
   * the pattern match.
   */
  lemma LogoFirstImage(u: string)
    requires LogoMatch(u).Some?
    ensures var r := LogoMatch(u).value;
      |r| == 8 && forall j, rs :: r[0] <= j < r[1] && j <= |u| ==> !Matches(LogoImage, u, j, rs, false)
  {
    var r := LogoMatch(u).value;
    LazyShortest(LogoPattern, u, 0, false, 1);
    assert LogoPattern[2..] == LogoImage;
    forall j, rs | r[0] <= j < r[1] && j <= |u| ensures !Matches(LogoImage, u, j, rs, false) {
      if Matches(LogoImage, u, j, rs, false) {
        RunComplete(LogoImage, u, j, rs, false);
      }
    }
  }

  /** `<img([^>]*)src="\/images\/`: group 1 ends with element 1. */
  const HostPattern: seq<Elem> := [Lit("<img"), Greedy(NotChar('>')), Lit("src=\"/images/")]

  const Host: string := "https://bbenchoff.github.io"

  /** The engine's match of the host pattern at the start of `u`. */
  function HostMatch(u: string): Option<seq<nat>> {
    Run(HostPattern, u, 0, false)
  }

  lemma HostShape(u: string)
    requires HostMatch(u).Some?
    ensures var r := HostMatch(u).value;
      |r| == 3 && r[0] == 4 <= r[1] && r[1] + 13 == r[2] <= |u|
  {
    var r := HostMatch(u).value;
    RunSound(HostPattern, u, 0, false);
    MatchesOrdered(HostPattern, u, 0, r, false);
    assert ElemMatches(HostPattern[0], u, 0, r[0], false);
    assert ElemMatches(HostPattern[2], u, r[1], r[2], false);
  }

  /** `'<img$1src="https://bbenchoff.github.io/images/'`. */
  function HostAt(u: string): Option<(nat, string)> {
    match HostMatch(u)
    case None => None
    case Some(r) =>
      HostShape(u);
      Some((r[2], "<img" + u[4..r[1]] + "src=\"" + Host + "/images/"))
  }

  lemma HostConsumes()
    ensures Consumes(HostAt)
  {
    forall u | HostAt(u).Some? ensures 0 < HostAt(u).value.0 <= |u| {
      HostShape(u);
    }
  }

  /** The second replace of `fixImageUrls`. */
  function FixHosts(html: string): string {
    HostConsumes();
    ReplaceAll(html, HostAt)
  }

  /** `fixImageUrls(html)`. */
  function FixImageUrls(html: string): string {
    FixHosts(FixLogos(html))
  }

  /**
   * A host match is an image tag's start up to `src="/images/`, with no `>`
   * in between; its replacement is the matched text with the host inserted
   * right before `/images/`, and nothing else changed.
   */
  lemma HostInserted(u: string)
    requires HostMatch(u).Some?
    ensures var r := HostMatch(u).value;
      |r| == 3 && 4 <= r[1] && r[1] + 13 == r[2] <= |u|
      && u[..4] == "<img" && u[r[1]..r[2]] == "src=\"/images/"
      && (forall k :: 4 <= k < r[1] ==> u[k] != '>')
      && HostAt(u) == Some((r[2], u[..r[1] + 5] + Host + u[r[1] + 5..r[2]]))
  {
    var r := HostMatch(u).value;
    HostShape(u);
    RunSound(HostPattern, u, 0, false);
    assert ElemMatches(HostPattern[0], u, 0, r[0], false);
    assert ElemMatches(HostPattern[1], u, r[0], r[1], false);
    assert ElemMatches(HostPattern[2], u, r[1], r[2], false);
    HostSplice(u, r[1]);
  }

  /** Inserting the host before `/images/` in `<img…src="/images/`. */
  lemma HostSplice(u: string, a: nat)
    requires 4 <= a && a + 13 <= |u| && u[..4] == "<img" && u[a..a + 13] == "src=\"/images/"
    ensures "<img" + u[4..a] + "src=\"" + Host + "/images/" == u[..a + 5] + Host + u[a + 5..a + 13]
  {
    var lit := u[a..a + 13];
    assert u[a..a + 5] == lit[..5] == "src=\"";
    assert u[a + 5..a + 13] == lit[5..] == "/images/";
    assert u[..a + 5] == u[..4] + u[4..a] + u[a..a + 5];
  }

  /**
   * The greedy attributes run to the last `src="/images/` before the tag's
   * `>`: no later position inside the tag starts one.
   */
  lemma HostLastSource(u: string)
    requires HostMatch(u).Some?
    ensures var r := HostMatch(u).value;
      |r| == 3 && forall j :: r[1] < j <= |u| && (forall k :: 4 <= k < j ==> u[k] != '>') ==> !LitAt(u, "src=\"/images/", j, false)
  {
    var r := HostMatch(u).value;
    GreedyLongest(HostPattern, u, 0, false, 1);
    HostShape(u);
    forall j | r[1] < j <= |u| && (forall k :: 4 <= k < j ==> u[k] != '>') ensures !LitAt(u, "src=\"/images/", j, false) {
      assert AllIn(u, Start(0, r, 1), j, HostPattern[1].cls, false);
      assert HostPattern[2..] == [Lit("src=\"/images/")];
    }
  }

  /**
   * The logo replace read from its first match at `i`: the text before it is
   * kept, the match loses only its old source, and the scan resumes after the
   * closing quote.
   */
  lemma {:induction false} FixLogosAtFirstMatch(t: string, i: nat)
    requires i < |t| && LogoMatch(t[i..]).Some? && NoMatchBefore(t, LogoAt, i)
    ensures var r := LogoMatch(t[i..]).value;
      |r| == 8 && r[4] <= r[7] && i + r[7] <= |t|
      && FixLogos(t) == t[..i] + t[i..i + r[4]] + LocalLogo + "\"" + FixLogos(t[i + r[7]..])
  {
    var u := t[i..];
    var r := LogoMatch(u).value;
    LogoReplacesSource(u);
    LogoShape(u);
    assert u[..r[4]] == t[i..i + r[4]];
    assert t[..i] + t[i..i + r[4]] + LocalLogo + "\"" == t[..i] + (u[..r[4]] + LocalLogo + "\"");
    FixLogosAtMatch(t, i, r[7], u[..r[4]] + LocalLogo + "\"");
  }

  lemma {:induction false} FixLogosAtMatch(t: string, i: nat, n: nat, w: string)
    requires i < |t| && LogoAt(t[i..]) == Some((n, w)) && NoMatchBefore(t, LogoAt, i)
    ensures i + n <= |t| && FixLogos(t) == t[..i] + w + FixLogos(t[i + n..])
  {
    LogoConsumes();
    ReplaceAllAtMatch(t, LogoAt, i, n, w);
  }

  /** The host replace read from its first match at `i`: the host goes in before `/images/`, and nothing else changes there. */
  lemma {:induction false} FixHostsAtFirstMatch(t: string, i: nat)
    requires i < |t| && HostMatch(t[i..]).Some? && NoMatchBefore(t, HostAt, i)
    ensures var r := HostMatch(t[i..]).value;
      |r| == 3 && r[1] + 13 == r[2] && i + r[2] <= |t|
      && FixHosts(t) == t[..i] + t[i..i + r[1] + 5] + Host + t[i + r[1] + 5..i + r[2]] + FixHosts(t[i + r[2]..])
  {
    var r := HostMatch(t[i..]).value;
    HostAtSuffix(t, i);
    var w := t[i..i + r[1] + 5] + Host + t[i + r[1] + 5..i + r[2]];
    FixHostsAtMatch(t, i, r[2], w);
  }

  /** The replacement for a host match inside a longer text, in that text's characters. */
  lemma HostAtSuffix(t: string, i: nat)
    requires i <= |t| && HostMatch(t[i..]).Some?
    ensures var r := HostMatch(t[i..]).value;
      |r| == 3 && r[1] + 13 == r[2] && i + r[2] <= |t|
      && HostAt(t[i..]) == Some((r[2], t[i..i + r[1] + 5] + Host + t[i + r[1] + 5..i + r[2]]))
  {
    var u := t[i..];
    var r := HostMatch(u).value;
    HostInserted(u);
    assert u[..r[1] + 5] == t[i..i + r[1] + 5];
    assert u[r[1] + 5..r[2]] == t[i + r[1] + 5..i + r[2]];
  }

  lemma {:induction false} FixHostsAtMatch(t: string, i: nat, n: nat, w: string)
    requires i < |t| && HostAt(t[i..]) == Some((n, w)) && NoMatchBefore(t, HostAt, i)
    ensures i + n <= |t| && FixHosts(t) == t[..i] + w + FixHosts(t[i + n..])
  {
    HostConsumes();
    ReplaceAllAtMatch(t, HostAt, i, n, w);
  }

  /** Both patterns need an `<img` at or after where they start. */
  lemma MatchesNeedImage(t: string, j: nat)
    requires j <= |t|
    ensures LogoMatch(t[j..]).Some? ==>
      |LogoMatch(t[j..]).value| == 8 && Occurs(t, "<img", j + LogoMatch(t[j..]).value[1])
    ensures HostMatch(t[j..]).Some? ==> Occurs(t, "<img", j)
  {
    var u := t[j..];
    if LogoMatch(u).Some? {
      var r := LogoMatch(u).value;
      LogoShape(u);
      RunSound(LogoPattern, u, 0, false);
      assert ElemMatches(LogoPattern[2], u, r[1], r[2], false);
      assert t[j + r[1]..j + r[1] + 4] == u[r[1]..r[2]] == "<img";
    }
    if HostMatch(u).Some? {
      HostInserted(u);
      assert t[j..j + 4] == u[..4];
    }
  }

  /** A page without an `<img` tag comes out of `fixImageUrls` unchanged. */
  lemma {:induction false} NoImageUnchanged(t: string)
    requires IndexOf(t, "<img").None?
    ensures FixImageUrls(t) == t
  {
    LogoConsumes();
    forall j | 0 <= j <= |t| ensures LogoAt(t[j..]).None? {
      MatchesNeedImage(t, j);
    }
    ReplaceAllNoMatch(t, LogoAt);
    HostConsumes();
    forall j | 0 <= j <= |t| ensures HostAt(t[j..]).None? {
      MatchesNeedImage(t, j);
    }
    ReplaceAllNoMatch(t, HostAt);
  }
}

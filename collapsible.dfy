/**
 * `processCollapsibleCodeBlocks`: every `<!-- COLLAPSIBLE -->` marker,
 * code block and `<!-- /COLLAPSIBLE -->` marker is replaced by the widget
 * markup around the code block. The pattern carries the `g` and `i` flags,
 * so the search is global and every literal is compared without regard to
 * ASCII case.
 */
module Collapsible {
  import opened Text
  import opened Scanner
  import opened Regex

  /** `<!--\s*COLLAPSIBLE\s*-->\s*` */
  const OpenMarker: seq<Elem> :=
    [Lit("<!--"), Greedy(Space), Lit("COLLAPSIBLE"), Greedy(Space), Lit("-->"), Greedy(Space)]

  /** Capture group 1: `<pre><code[^>]*>[\s\S]*?<\/code><\/pre>` */
  const CodeBlock: seq<Elem> :=
    [Lit("<pre><code"), Greedy(NotChar('>')), Lit(">"), Lazy(AnyChar), Lit("</code></pre>")]

  /** `\s*<!--\s*\/COLLAPSIBLE\s*-->` */
  const CloseMarker: seq<Elem> :=
    [Greedy(Space), Lit("<!--"), Greedy(Space), Lit("/COLLAPSIBLE"), Greedy(Space), Lit("-->")]

  /** The whole pattern: element 5 ends where the group begins, element 10 where it ends, element 16 where the match ends. */
  const Pattern: seq<Elem> := OpenMarker + CodeBlock + CloseMarker

  /** What has to follow the lazy body: the closing tag and the closing marker. */
  const Closing: seq<Elem> := [Lit("</code></pre>")] + CloseMarker

  /** The engine's match of the pattern at the start of `u`, with the `i` flag. */
  function MatchAt(u: string): Option<seq<nat>> {
    Run(Pattern, u, 0, true)
  }

  /** A match has one position per element; they grow, the first is 4 and the last lies inside the text. */
  lemma MatchShape(u: string)
    requires MatchAt(u).Some?
    ensures var r := MatchAt(u).value;
      |r| == 17 && r[0] == 4 && r[0] <= r[5] <= r[10] <= r[16] <= |u|
  {
    var r := MatchAt(u).value;
    RunSound(Pattern, u, 0, true);
    MatchesOrdered(Pattern, u, 0, r, true);
    assert ElemMatches(Pattern[0], u, Start(0, r, 0), r[0], true);
  }

  /** The template literal of the callback before `${codeBlock}`. */
  const WrapperHead: string :=
    "\n            <div class=\"code-block-wrapper collapsible\">\n                <div class=\"code-block-header\">\n"
    + "                    <span class=\"code-block-title\">Code Example</span>\n"
    + "                    <span class=\"code-block-toggle\">Show Code</span>\n"
    + "                </div>\n                <div class=\"code-block-content\">\n                    "

  /** The template literal after `${codeBlock}`. */
  const WrapperTail: string := "\n                </div>\n            </div>\n        "

  /**
   * The replacement callback: the widget with the captured block in it. The
   * callback's result is inserted as it is, so a `$` in the block is not a
   * replacement pattern.
   */
  function Wrapper(codeBlock: string): string {
    WrapperHead + codeBlock + WrapperTail
  }

  /** The pattern as a matcher: the match length and the widget around capture group 1. */
  function CollapsibleAt(u: string): Option<(nat, string)> {
    match MatchAt(u)
    case None => None
    case Some(r) =>
      MatchShape(u);
      Some((r[16], Wrapper(u[r[5]..r[10]])))
  }

  lemma CollapsibleConsumes()
    ensures Consumes(CollapsibleAt)
  {
    forall u | CollapsibleAt(u).Some? ensures 0 < CollapsibleAt(u).value.0 <= |u| {
      MatchShape(u);
    }
  }

  /** `processCollapsibleCodeBlocks(html)`. */
  function Process(html: string): string {
    CollapsibleConsumes();
    ReplaceAll(html, CollapsibleAt)
  }

  /**
   * A match is an opening marker, a code block and a closing marker, in a
   * row: the captured group `u[r[5]..r[10]]` is a `<pre><code…>…</code></pre>`
   * block on its own, and the match ends where the closing marker does.
   */
  lemma MatchParts(u: string)
    requires MatchAt(u).Some?
    ensures var r := MatchAt(u).value;
      |r| == 17
      && Matches(OpenMarker, u, 0, r[..6], true)
      && Matches(CodeBlock, u, r[5], r[6..11], true)
      && Matches(CloseMarker, u, r[10], r[11..], true)
  {
    var r := MatchAt(u).value;
    RunSound(Pattern, u, 0, true);
    RunLength(Pattern, u, 0, true);
    MatchesAppend(OpenMarker + CodeBlock, CloseMarker, u, 0, r, true);
    MatchesAppend(OpenMarker, CodeBlock, u, 0, r[..11], true);
    assert r[..11][..6] == r[..6];
    assert r[..11][6..] == r[6..11];
  }

  /**
   * The lazy body stops at the first `</code></pre>` that the closing marker
   * follows: from no earlier position after the code tag's `>` do the
   * closing tag and the closing marker match.
   */
  lemma FirstClosingTag(u: string)
    requires MatchAt(u).Some?
    ensures var r := MatchAt(u).value;
      |r| == 17 && forall j, rs :: r[8] <= j < r[9] && j <= |u| ==> !Matches(Closing, u, j, rs, true)
  {
    var r := MatchAt(u).value;
    LazyShortest(Pattern, u, 0, true, 9);
    assert Pattern[10..] == Closing;
    forall j, rs | r[8] <= j < r[9] && j <= |u| ensures !Matches(Closing, u, j, rs, true) {
      if Matches(Closing, u, j, rs, true) {
        RunComplete(Closing, u, j, rs, true);
      }
    }
  }

  /**
   * The markers and tags are matched without regard to case: two texts that
   * differ only in the case of letters are matched at the same positions.
   */
  lemma MarkersIgnoreCase(u: string, v: string)
    requires SameFold(u, v)
    ensures MatchAt(u) == MatchAt(v)
    ensures CollapsibleAt(u).Some? <==> CollapsibleAt(v).Some?
  {
    RunFold(Pattern, u, v, 0);
  }

  /**
   * The global replace read from its first match at `i`: the text before it
   * is kept, the match becomes one widget holding the captured block
   * character for character, and the scan resumes after the closing marker.
   */
  lemma {:induction false} ProcessAtFirstBlock(t: string, i: nat)
    requires i < |t| && MatchAt(t[i..]).Some? && NoMatchBefore(t, CollapsibleAt, i)
    ensures var r := MatchAt(t[i..]).value;
      |r| == 17 && r[5] <= r[10] <= r[16] && i + r[16] <= |t|
      && Process(t) == t[..i] + Wrapper(t[i + r[5]..i + r[10]]) + Process(t[i + r[16]..])
  {
    var r := MatchAt(t[i..]).value;
    CollapsibleAtSuffix(t, i);
    ProcessAtMatch(t, i, r[16], Wrapper(t[i + r[5]..i + r[10]]));
  }

  lemma {:induction false} ProcessAtMatch(t: string, i: nat, n: nat, w: string)
    requires i < |t| && CollapsibleAt(t[i..]) == Some((n, w)) && NoMatchBefore(t, CollapsibleAt, i)
    ensures i + n <= |t| && Process(t) == t[..i] + w + Process(t[i + n..])
  {
    CollapsibleConsumes();
    ReplaceAllAtMatch(t, CollapsibleAt, i, n, w);
  }

  /** The widget for a match inside a longer text holds that text's characters. */
  lemma CollapsibleAtSuffix(t: string, i: nat)
    requires i <= |t| && MatchAt(t[i..]).Some?
    ensures var r := MatchAt(t[i..]).value;
      |r| == 17 && r[5] <= r[10] <= r[16] && i + r[16] <= |t|
      && CollapsibleAt(t[i..]) == Some((r[16], Wrapper(t[i + r[5]..i + r[10]])))
  {
    var u := t[i..];
    var r := MatchAt(u).value;
    MatchShape(u);
    assert u[r[5]..r[10]] == t[i + r[5]..i + r[10]];
  }

  /** A character that is not an ASCII letter is matched only by itself, whatever the case folding. */
  lemma LowerCharOther(c: char, x: char)
    requires !IsUpper(x) && !('a' <= x <= 'z')
    ensures LowerChar(c) == LowerChar(x) <==> c == x
  {
    if IsUpper(c) {
      assert 'a' as int <= c as int + 32 <= 'z' as int;
    }
  }

  /** A match has to start with `<!--` as it is written, since none of its characters is a letter. */
  lemma MatchOpensAt(t: string, j: nat)
    requires j <= |t|
    ensures MatchAt(t[j..]).Some? ==> Occurs(t, "<!--", j)
  {
    var u := t[j..];
    if MatchAt(u).Some? {
      MatchParts(u);
      var r := MatchAt(u).value;
      assert ElemMatches(OpenMarker[0], u, 0, r[0], true);
      forall k | 0 <= k < 4 ensures t[j + k] == "<!--"[k] {
        assert u[k] == t[j + k];
        LowerCharOther(u[k], "<!--"[k]);
      }
      assert t[j..j + 4] == "<!--";
    }
  }

  /** Without a `<!--` in the text no marker starts anywhere, and the text comes back unchanged. */
  lemma {:induction false} NoMarkerUnchanged(t: string)
    requires IndexOf(t, "<!--").None?
    ensures Process(t) == t
  {
    CollapsibleConsumes();
    forall j | 0 <= j <= |t| ensures CollapsibleAt(t[j..]).None? {
      MatchOpensAt(t, j);
    }
    ReplaceAllNoMatch(t, CollapsibleAt);
  }
}

/**
 * The last step of `build`: the page template gets the processed HTML in
 * place of its content placeholder and the TOC list in place of its TOC
 * placeholder. Both are `String.prototype.replace` calls with a string
 * pattern, so only the first occurrence of each placeholder is replaced,
 * and `$` patterns in the inserted text are expanded.
 */
module Assembler {
  import opened Text

  const ContentToken: string := "<!-- CONTENT -->"
  const TocToken: string := "<!-- TOC -->"

  /** `template.replace('<!-- CONTENT -->', html).replace('<!-- TOC -->', toc)`, as JavaScript evaluates it. */
  function AssembleAsWritten(template: string, html: string, toc: string): string {
    ReplaceStringJs(ReplaceStringJs(template, ContentToken, html), TocToken, toc)
  }

  /** The same two replaces with the inserted text taken literally. */
  function Assemble(template: string, html: string, toc: string): string {
    ReplaceString(ReplaceString(template, ContentToken, html), TocToken, toc)
  }

  /** Where neither inserted text holds a `$`, the two agree. */
  lemma AssembleWithoutDollar(template: string, html: string, toc: string)
    requires '$' !in html && '$' !in toc
    ensures AssembleAsWritten(template, html, toc) == Assemble(template, html, toc)
  {
    ReplaceStringJsLiteral(template, ContentToken, html);
    ReplaceStringJsLiteral(ReplaceString(template, ContentToken, html), TocToken, toc);
  }

  /** Where the pattern first occurs at `i`, the literal replace splices the text in there. */
  lemma ReplaceAt(s: string, pat: string, rep: string, i: nat)
    requires IndexOf(s, pat) == Some(i)
    ensures i + |pat| <= |s| && ReplaceString(s, pat, rep) == s[..i] + rep + s[i + |pat|..]
  {
  }

  /** The pieces of a text made of five pieces. */
  lemma Pieces(a: string, b: string, c: string, d: string, e: string)
    ensures var s := a + b + c + d + e;
      s[..|a|] == a && s[|a| + |b|..] == c + d + e
      && s[..|a| + |b| + |c|] == a + b + c && s[|a| + |b| + |c| + |d|..] == e
  {
    var s := a + b + c + d + e;
    assert s == a + (b + (c + d + e));
    assert s == (a + b + c) + (d + e);
  }

  /**
   * With the content placeholder first found after `pre`, and the TOC
   * placeholder first found after `pre + html + mid` once the HTML is in,
   * the page is the template with the HTML and the TOC list each in its
   * placeholder's place.
   */
  lemma {:induction false} AssembleSlots(pre: string, mid: string, post: string, html: string, toc: string)
    requires IndexOf(pre + ContentToken + mid + TocToken + post, ContentToken) == Some(|pre|)
    requires IndexOf(pre + html + mid + TocToken + post, TocToken) == Some(|pre| + |html| + |mid|)
    ensures Assemble(pre + ContentToken + mid + TocToken + post, html, toc) == pre + html + mid + toc + post
  {
    TwoSlots(pre, ContentToken, mid, TocToken, post, html, toc);
  }

  /** Two literal replaces, each of whose pattern is first found where the slot is. */
  lemma {:induction false} TwoSlots(pre: string, c: string, mid: string, d: string, post: string, x: string, y: string)
    requires IndexOf(pre + c + mid + d + post, c) == Some(|pre|)
    requires IndexOf(pre + x + mid + d + post, d) == Some(|pre| + |x| + |mid|)
    ensures ReplaceString(ReplaceString(pre + c + mid + d + post, c, x), d, y) == pre + x + mid + y + post
  {
    FirstSlot(pre, c, mid, d, post, x);
    SecondSlot(pre, x, mid, d, post, y);
  }

  lemma {:induction false} FirstSlot(pre: string, c: string, mid: string, d: string, post: string, x: string)
    requires IndexOf(pre + c + mid + d + post, c) == Some(|pre|)
    ensures ReplaceString(pre + c + mid + d + post, c, x) == pre + x + mid + d + post
  {
    var t := pre + c + mid + d + post;
    ReplaceAt(t, c, x, |pre|);
    Pieces(pre, c, mid, d, post);
    assert t[|pre| + |c|..] == mid + d + post;
    assert pre + x + (mid + d + post) == pre + x + mid + d + post;
  }

  lemma {:induction false} SecondSlot(pre: string, x: string, mid: string, d: string, post: string, y: string)
    requires IndexOf(pre + x + mid + d + post, d) == Some(|pre| + |x| + |mid|)
    ensures ReplaceString(pre + x + mid + d + post, d, y) == pre + x + mid + y + post
  {
    var f := pre + x + mid + d + post;
    ReplaceAt(f, d, y, |pre| + |x| + |mid|);
    Pieces(pre, x, mid, d, post);
  }

  /** A template without the content placeholder drops the HTML: the first replace changes nothing. */
  lemma MissingContentToken(template: string, html: string)
    requires IndexOf(template, ContentToken).None?
    ensures ReplaceStringJs(template, ContentToken, html) == template
    ensures ReplaceString(template, ContentToken, html) == template
  {
  }

  /** A page without the table-of-contents placeholder comes out unchanged. */
  lemma MissingTocToken(page: string, toc: string)
    requires IndexOf(page, TocToken).None?
    ensures ReplaceStringJs(page, TocToken, toc) == page
    ensures ReplaceString(page, TocToken, toc) == page
  {
  }

  /**
   * As written, a `$&` in the processed HTML is read as a replacement
   * pattern: on the template `<!-- CONTENT -->` the page comes out as the
   * placeholder again instead of the HTML `$&`.
   */
  lemma AsWrittenExpandsDollar()
    ensures AssembleAsWritten(ContentToken, "$&", "") == ContentToken
    ensures Assemble(ContentToken, "$&", "") == "$&"
  {
    WholeMatch(ContentToken, "$&");
    NoTocInContent();
    NoTocInDollar();
  }

  /** On a text that is exactly the pattern, `$&` gives the pattern back, and a literal replace gives the replacement. */
  lemma WholeMatch(pat: string, rep: string)
    requires rep == "$&"
    ensures ReplaceStringJs(pat, pat, rep) == pat
    ensures ReplaceString(pat, pat, rep) == rep
  {
    assert pat[0..|pat|] == pat;
    assert IndexOf(pat, pat) == Some(0);
    assert pat[..0] == [] && pat[|pat|..] == [];
    SubstitutionMatched("", pat, [], []);
    assert "$&" + "" == rep;
  }

  lemma NoTocInContent()
    ensures IndexOf(ContentToken, TocToken).None?
  {
    var t := ContentToken;
    forall j: nat | j + |TocToken| <= |t| ensures !Occurs(t, TocToken, j) {
      if j == 0 {
        assert t[5] != TocToken[5];
      } else {
        assert t[j] != TocToken[0];
      }
    }
  }

  lemma NoTocInDollar()
    ensures IndexOf("$&", TocToken).None?
  {
  }
}

/**
 * The identifier `generateTOC` derives for a heading without an `id`
 * (docs/build-docs.js:82-87): lower-case the heading text, delete every
 * `<…>` tag, drop every character outside `[\w\s-]`, turn every run of
 * white space into `-`, then turn every run of two or more `-` into one.
 */
module Slug {
  import opened Text
  import opened Scanner

  /** `<[^>]+>`: a `<`, at least one character other than `>`, then the first `>`. */
  function TagAt(t: string): (r: Option<(nat, string)>)
    ensures r.Some? ==> 3 <= r.value.0 <= |t| && r.value.1 == []
    ensures r.Some? ==> t[0] == '<' && t[r.value.0 - 1] == '>' && '>' !in t[1..r.value.0 - 1]
    ensures r.None? && |t| >= 2 && t[0] == '<' && t[1] != '>' ==> '>' !in t
  {
    if |t| < 3 || t[0] != '<' || t[1] == '>' then None
    else match IndexOf(t, ">", 2)
      case None =>
        assert forall j :: 2 <= j < |t| ==> t[j] != '>' by {
          forall j | 2 <= j < |t| ensures t[j] != '>' {
            assert !Occurs(t, ">", j);
            assert t[j..j + 1] == [t[j]];
          }
        }
        None
      case Some(g) =>
        assert t[g..g + 1] == ">";
        forall k | 0 <= k < g - 1 ensures t[1..g][k] != '>' {
          assert !Occurs(t, ">", k + 1);
          assert t[k + 1..k + 2] == [t[k + 1]];
        }
        Some((g + 1, []))
  }

  /** `[^\w\s-]`: one character that cannot appear in an identifier. */
  function NonIdCharAt(t: string): (r: Option<(nat, string)>)
    ensures r.Some? <==> t != [] && !IsIdChar(t[0])
    ensures r.Some? ==> r.value == (1, [])
  {
    if t != [] && !IsIdChar(t[0]) then Some((1, [])) else None
  }

  predicate IsIdChar(c: char) {
    IsWordChar(c) || IsSpace(c) || c == '-'
  }

  /** `\s+`, replaced by `-`. */
  function SpaceRunAt(t: string): (r: Option<(nat, string)>)
    ensures r.Some? <==> t != [] && IsSpace(t[0])
    ensures r.Some? ==> 0 < r.value.0 <= |t| && r.value.1 == "-"
    ensures r.Some? ==> forall i :: 0 <= i < r.value.0 ==> IsSpace(t[i])
    ensures r.Some? ==> r.value.0 == |t| || !IsSpace(t[r.value.0])
  {
    if t != [] && IsSpace(t[0]) then Some((Span(t, IsSpace), "-")) else None
  }

  predicate IsHyphen(c: char) {
    c == '-'
  }

  /** `--+`, replaced by `-`. */
  function HyphenRunAt(t: string): (r: Option<(nat, string)>)
    ensures r.Some? <==> |t| >= 2 && t[0] == '-' && t[1] == '-'
    ensures r.Some? ==> 2 <= r.value.0 <= |t| && r.value.1 == "-"
    ensures r.Some? ==> forall i :: 0 <= i < r.value.0 ==> t[i] == '-'
    ensures r.Some? ==> r.value.0 == |t| || t[r.value.0] != '-'
  {
    if |t| >= 2 && t[0] == '-' && t[1] == '-' then Some((Span(t, IsHyphen), "-")) else None
  }

  lemma MatchersConsume()
    ensures Consumes(TagAt) && Consumes(NonIdCharAt) && Consumes(SpaceRunAt) && Consumes(HyphenRunAt)
  {
  }

  /** `s.replace(/<[^>]+>/g, '')`. */
  function StripTags(s: string): (r: string)
    ensures IsSubsequence(r, s) && |r| <= |s|
  {
    MatchersConsume();
    ReplaceAllDeletes(s, TagAt);
    SubsequenceLength(ReplaceAll(s, TagAt), s);
    ReplaceAll(s, TagAt)
  }

  /** No `<[^>]+>` tag starts anywhere in `s`. */
  predicate HasNoTag(s: string) {
    forall j :: 0 <= j < |s| ==> TagAt(s[j..]).None?
  }

  /** Stripping tags leaves no tag behind: a `<` that survives cannot start a new one. */
  lemma {:induction false} StripTagsLeavesNoTag(t: string)
    ensures HasNoTag(StripTags(t))
    decreases |t|
  {
    MatchersConsume();
    if t != [] {
      match TagAt(t)
      case Some((n, r)) =>
        StripTagsLeavesNoTag(t[n..]);
        assert StripTags(t) == StripTags(t[n..]);
      case None =>
        var rest := StripTags(t[1..]);
        StripTagsLeavesNoTag(t[1..]);
        var u := [t[0]] + rest;
        assert StripTags(t) == u;
        forall j | 0 <= j < |u| ensures TagAt(u[j..]).None? {
          if j > 0 {
            assert u[j..] == rest[j - 1..];
          } else if t[0] == '<' {
            assert u[0..] == u;
            SurvivingOpen(t);
          }
        }
    }
  }

  /** A `<` that starts no tag is followed, after stripping, by `>`, by too little text, or by no `>` at all. */
  lemma SurvivingOpen(t: string)
    requires t != [] && t[0] == '<' && TagAt(t).None?
    ensures TagAt([t[0]] + StripTags(t[1..])).None?
  {
    MatchersConsume();
    var rest := StripTags(t[1..]);
    var u := [t[0]] + rest;
    if |t| < 3 {
      assert |u| < 3;
    } else if t[1] == '>' {
      assert t[1..][0] == '>';
      assert TagAt(t[1..]).None?;
      assert rest == [t[1]] + StripTags(t[2..]) by {
        assert t[1..][1..] == t[2..];
      }
      assert u[1] == '>';
    } else {
      assert '>' !in t;
      SubsequenceChars(rest, t[1..]);
      assert forall c :: c in t[1..] ==> c in t;
      assert '>' !in u;
    }
  }

  function KeepIdChars(s: string): string {
    MatchersConsume();
    ReplaceAll(s, NonIdCharAt)
  }

  function DashSpaces(s: string): string {
    MatchersConsume();
    ReplaceAll(s, SpaceRunAt)
  }

  function CollapseHyphens(s: string): string {
    MatchersConsume();
    ReplaceAll(s, HyphenRunAt)
  }

  /** The characters a generated identifier is made of: `[a-z0-9_-]`. */
  predicate IsSlugChar(c: char) {
    'a' <= c <= 'z' || '0' <= c <= '9' || c == '_' || c == '-'
  }

  predicate NoDoubleHyphen(s: string) {
    forall i :: 0 <= i < |s| - 1 ==> !(s[i] == '-' && s[i + 1] == '-')
  }

  /** The identifier made from a heading's text (docs/build-docs.js:82-87). */
  function Slug(text: string): (id: string)
    ensures forall c :: c in id ==> IsSlugChar(c)
    ensures NoDoubleHyphen(id)
    ensures |id| <= |text|
  {
    var lower := ToLower(text);
    var stripped := StripTags(lower);
    var kept := KeepIdChars(stripped);
    var dashed := DashSpaces(kept);
    var id := CollapseHyphens(dashed);
    SlugStages(text);
    id
  }

  predicate IsLowerIdChar(c: char) {
    IsIdChar(c) && !IsUpper(c)
  }

  predicate IsLowerWordOrHyphen(c: char) {
    (IsWordChar(c) && !IsUpper(c)) || c == '-'
  }

  /** What each stage of the identifier chain guarantees. */
  lemma SlugStages(text: string)
    ensures var lower := ToLower(text);
            var stripped := StripTags(lower);
            var kept := KeepIdChars(stripped);
            var dashed := DashSpaces(kept);
            var id := CollapseHyphens(dashed);
            (forall c :: c in id ==> IsSlugChar(c)) && NoDoubleHyphen(id) && |id| <= |text|
  {
    var lower := ToLower(text);
    var stripped := StripTags(lower);
    SubsequenceChars(stripped, lower);
    var kept := KeepIdChars(stripped);
    KeptChars(stripped);
    var dashed := DashSpaces(kept);
    DashedChars(kept);
    var id := CollapseHyphens(dashed);
    CollapsedChars(dashed);
    CollapsedHasNoDoubleHyphen(dashed);
  }

  lemma KeptChars(s: string)
    requires forall c :: c in s ==> !IsUpper(c)
    ensures forall c :: c in KeepIdChars(s) ==> IsLowerIdChar(c)
    ensures |KeepIdChars(s)| <= |s|
  {
    MatchersConsume();
    forall j | 0 <= j < |s| && NonIdCharAt(s[j..]).None? ensures IsLowerIdChar(s[j]) {
      assert s[j..][0] == s[j];
    }
    ReplaceAllKeeps(s, NonIdCharAt, IsLowerIdChar);
    ReplaceAllNotLonger(s, NonIdCharAt);
  }

  lemma DashedChars(s: string)
    requires forall c :: c in s ==> IsLowerIdChar(c)
    ensures forall c :: c in DashSpaces(s) ==> IsLowerWordOrHyphen(c)
    ensures |DashSpaces(s)| <= |s|
  {
    MatchersConsume();
    forall j | 0 <= j < |s| && SpaceRunAt(s[j..]).None? ensures IsLowerWordOrHyphen(s[j]) {
      assert s[j..][0] == s[j];
      assert s[j] in s;
      assert IsLowerIdChar(s[j]) && !IsSpace(s[j]);
    }
    ReplaceAllKeeps(s, SpaceRunAt, IsLowerWordOrHyphen);
    ReplaceAllNotLonger(s, SpaceRunAt);
  }

  lemma CollapsedChars(s: string)
    requires forall c :: c in s ==> IsLowerWordOrHyphen(c)
    ensures forall c :: c in CollapseHyphens(s) ==> IsSlugChar(c)
    ensures |CollapseHyphens(s)| <= |s|
  {
    MatchersConsume();
    ReplaceAllKeeps(s, HyphenRunAt, IsLowerWordOrHyphen);
    ReplaceAllNotLonger(s, HyphenRunAt);
  }

  /** A subsequence uses only characters of the sequence it comes from. */
  lemma {:induction false} SubsequenceChars(a: string, b: string)
    requires IsSubsequence(a, b)
    ensures forall c :: c in a ==> c in b
    decreases |b|
  {
    if a != [] {
      if a[0] == b[0] && IsSubsequence(a[1..], b[1..]) {
        SubsequenceChars(a[1..], b[1..]);
        assert forall c :: c in a ==> c == a[0] || c in a[1..];
      } else {
        SubsequenceChars(a, b[1..]);
      }
    }
  }

  /** After `--+` is replaced by `-` everywhere, no two hyphens are adjacent. */
  lemma {:induction false} CollapsedHasNoDoubleHyphen(s: string)
    ensures NoDoubleHyphen(CollapseHyphens(s))
    ensures s != [] && s[0] != '-' ==> CollapseHyphens(s) != [] && CollapseHyphens(s)[0] == s[0]
    decreases |s|
  {
    MatchersConsume();
    if s != [] {
      match HyphenRunAt(s)
      case Some((n, r)) =>
        CollapsedHasNoDoubleHyphen(s[n..]);
        assert CollapseHyphens(s) == "-" + CollapseHyphens(s[n..]);
      case None =>
        CollapsedHasNoDoubleHyphen(s[1..]);
        assert CollapseHyphens(s) == [s[0]] + CollapseHyphens(s[1..]);
    }
  }

  /** Text without `<` has no tag to strip. */
  lemma StripTagsWithoutTag(x: string)
    requires '<' !in x
    ensures StripTags(x) == x
  {
    MatchersConsume();
    forall j | 0 <= j < |x| ensures TagAt(x[j..]).None? {
      assert x[j..][0] == x[j] && x[j] in x;
    }
    ReplaceAllNoMatch(x, TagAt);
  }

  lemma KeepIdCharsWithIdChars(x: string)
    requires forall c :: c in x ==> IsIdChar(c)
    ensures KeepIdChars(x) == x
  {
    MatchersConsume();
    forall j | 0 <= j < |x| ensures NonIdCharAt(x[j..]).None? {
      assert x[j..][0] == x[j] && x[j] in x;
    }
    ReplaceAllNoMatch(x, NonIdCharAt);
  }

  lemma DashSpacesWithoutSpace(x: string)
    requires forall c :: c in x ==> !IsSpace(c)
    ensures DashSpaces(x) == x
  {
    MatchersConsume();
    forall j | 0 <= j < |x| ensures SpaceRunAt(x[j..]).None? {
      assert x[j..][0] == x[j] && x[j] in x;
    }
    ReplaceAllNoMatch(x, SpaceRunAt);
  }

  lemma CollapseWithoutDoubleHyphen(x: string)
    requires NoDoubleHyphen(x)
    ensures CollapseHyphens(x) == x
  {
    MatchersConsume();
    forall j | 0 <= j < |x| ensures HyphenRunAt(x[j..]).None? {
      if |x[j..]| >= 2 {
        assert x[j..][0] == x[j] && x[j..][1] == x[j + 1];
      }
    }
    ReplaceAllNoMatch(x, HyphenRunAt);
  }

  /** An identifier is what the chain makes of it: `Slug(x) == x` exactly when `x` is already an identifier. */
  lemma SlugFixedPoint(x: string)
    ensures Slug(x) == x <==> (forall c :: c in x ==> IsSlugChar(c)) && NoDoubleHyphen(x)
  {
    if (forall c :: c in x ==> IsSlugChar(c)) && NoDoubleHyphen(x) {
      forall i | 0 <= i < |x| ensures ToLower(x)[i] == x[i] {
        assert x[i] in x;
      }
      assert ToLower(x) == x;
      StripTagsWithoutTag(x);
      KeepIdCharsWithIdChars(x);
      DashSpacesWithoutSpace(x);
      CollapseWithoutDoubleHyphen(x);
    }
  }

  /** Making an identifier twice gives the same identifier. */
  lemma SlugIdempotent(text: string)
    ensures Slug(Slug(text)) == Slug(text)
  {
    SlugFixedPoint(Slug(text));
  }

  /** Two words separated by one space are joined by one hyphen. */
  lemma DashTwoWords(a: string, b: string)
    requires forall c :: c in a ==> !IsSpace(c)
    requires forall c :: c in b ==> !IsSpace(c)
    ensures DashSpaces(a + " " + b) == a + "-" + b
  {
    DashAfterWord(a, b);
    DashLeadingSpace(b);
  }

  lemma DashAfterWord(a: string, b: string)
    requires forall c :: c in a ==> !IsSpace(c)
    ensures DashSpaces(a + " " + b) == a + DashSpaces(" " + b)
  {
    MatchersConsume();
    var t := a + " " + b;
    assert t[..|a|] == a;
    assert t[|a|..] == " " + b;
    NoSpaceBefore(a, b);
    ReplaceAllSkip(t, SpaceRunAt, |a|);
  }

  lemma DashLeadingSpace(b: string)
    requires forall c :: c in b ==> !IsSpace(c)
    ensures DashSpaces(" " + b) == "-" + b
  {
    MatchersConsume();
    SingleSpace(b);
    assert (" " + b)[1..] == b;
    DashSpacesWithoutSpace(b);
  }

  lemma NoSpaceBefore(a: string, b: string)
    requires forall c :: c in a ==> !IsSpace(c)
    ensures NoMatchBefore(a + " " + b, SpaceRunAt, |a|)
  {
    var t := a + " " + b;
    forall j | 0 <= j < |a| ensures SpaceRunAt(t[j..]).None? {
      assert t[j..][0] == a[j] && a[j] in a;
    }
  }

  lemma SingleSpace(b: string)
    requires forall c :: c in b ==> !IsSpace(c)
    ensures SpaceRunAt(" " + b) == Some((1, "-"))
  {
    var u := " " + b;
    assert Span(u, IsSpace) == 1 + Span(b, IsSpace) by { assert u[1..] == b; }
    if b != [] {
      assert b[0] in b;
    }
  }

  /** A heading of two words, already identifier characters, becomes the two words joined by `-`. */
  lemma SlugTwoWords(text: string, a: string, b: string)
    requires ToLower(text) == a + " " + b
    requires forall c :: c in a ==> IsSlugChar(c) && c != '-'
    requires forall c :: c in b ==> IsSlugChar(c) && c != '-'
    ensures Slug(text) == a + "-" + b
  {
    var words := a + " " + b;
    assert forall c :: c in words ==> c in a || c in b || c == ' ';
    StripTagsWithoutTag(words);
    KeepIdCharsWithIdChars(words);
    DashTwoWords(a, b);
    var joined := a + "-" + b;
    forall i | 0 <= i < |joined| - 1 ensures !(joined[i] == '-' && joined[i + 1] == '-') {
      if i < |a| {
        assert joined[i] == a[i] && a[i] in a;
      } else {
        assert i + 1 > |a| && joined[i + 1] == b[i - |a|] && b[i - |a|] in b;
      }
    }
    CollapseWithoutDoubleHyphen(joined);
  }

  /** The identifier of the heading `Hello World` is `hello-world`. */
  lemma SlugHelloWorld(text: string)
    requires text == "Hello World"
    ensures Slug(text) == "hello-world"
  {
    HelloWorldLower(text);
    SlugTwoWords(text, "hello", "world");
  }

  lemma HelloWorldLower(text: string)
    requires text == "Hello World"
    ensures ToLower(text) == "hello" + " " + "world"
  {
    var lower := ToLower(text);
    forall i | 0 <= i < |text| ensures lower[i] == "hello world"[i] {}
  }

  /** Punctuation after a word is dropped: `x$&` becomes `x`. */
  lemma SlugDropsPunctuation(text: string)
    requires text == "x$&"
    ensures Slug(text) == "x"
  {
    SampleLower(text);
    StripTagsWithoutTag(text);
    SampleKept(text);
    DashSpacesWithoutSpace("x");
    CollapseWithoutDoubleHyphen("x");
  }

  lemma SampleLower(text: string)
    requires text == "x$&"
    ensures ToLower(text) == text
  {
    var lower := ToLower(text);
    forall i | 0 <= i < |text| ensures lower[i] == text[i] {}
  }

  lemma SampleKept(text: string)
    requires text == "x$&"
    ensures KeepIdChars(text) == "x"
  {
    MatchersConsume();
    var amp := text[2..];
    assert ReplaceAll(amp, NonIdCharAt) == [] by {
      assert NonIdCharAt(amp) == Some((1, []));
      assert amp[1..] == [];
    }
    var tail := text[1..];
    assert ReplaceAll(tail, NonIdCharAt) == [] by {
      assert NonIdCharAt(tail) == Some((1, []));
      assert tail[1..] == amp;
    }
    assert NonIdCharAt(text) == None;
  }
}

/**
 * Strings and characters as the build script's JavaScript sees them: the
 * character classes its regular expressions use, first-occurrence search,
 * and `String.prototype.replace` with a string pattern, including the `$`
 * patterns that JavaScript expands inside a replacement string.
 */
module Text {

  datatype Option<T> = None | Some(value: T)

  /** The opening tag of a part header, which both the cleaner and the image rules look for. */
  const PartHeader: string := "<div class=\"starc-part-header\">"

  /** JavaScript's `\s`: the WhiteSpace and LineTerminator code points of ECMAScript. */
  predicate IsSpace(c: char) {
    c == ' ' || c == '\t' || c == '\n' || c == '\r' || c == '\U{000B}' || c == '\U{000C}'
    || c == '\U{00A0}' || c == '\U{1680}' || ('\U{2000}' <= c <= '\U{200A}')
    || c == '\U{2028}' || c == '\U{2029}' || c == '\U{202F}' || c == '\U{205F}'
    || c == '\U{3000}' || c == '\U{FEFF}'
  }

  /** The characters that `.` does not match (no `s` flag). */
  predicate IsLineTerminator(c: char) {
    c == '\n' || c == '\r' || c == '\U{2028}' || c == '\U{2029}'
  }

  /** JavaScript's `\w` without the `u` flag: ASCII letters, digits and `_`. */
  predicate IsWordChar(c: char) {
    'a' <= c <= 'z' || 'A' <= c <= 'Z' || '0' <= c <= '9' || c == '_'
  }

  predicate IsUpper(c: char) {
    'A' <= c <= 'Z'
  }

  /** `toLowerCase` on one character, restricted to ASCII. */
  function LowerChar(c: char): (d: char)
    ensures !IsUpper(d)
    ensures !IsUpper(c) ==> d == c
  {
    if IsUpper(c) then (c as int + 32) as char else c
  }

  /** Lower-casing keeps a character inside or outside `\w` and `\s`. */
  lemma LowerCharClasses(c: char)
    ensures IsWordChar(LowerChar(c)) == IsWordChar(c) && IsSpace(LowerChar(c)) == IsSpace(c)
  {
  }

  function ToLower(s: string): (r: string)
    ensures |r| == |s|
    ensures forall i :: 0 <= i < |s| ==> r[i] == LowerChar(s[i])
  {
    seq(|s|, i requires 0 <= i < |s| => LowerChar(s[i]))
  }

  /**
   * `t` begins with `lit` when ASCII letters are compared without regard to
   * case, as a regular expression with the `i` flag compares them.
   */
  predicate StartsWithFold(t: string, lit: string) {
    |lit| <= |t| && forall i :: 0 <= i < |lit| ==> LowerChar(t[i]) == LowerChar(lit[i])
  }

  /** The length of the longest prefix of `t` whose characters all satisfy `p` (a greedy `p*`). */
  function Span(t: string, p: char -> bool): (n: nat)
    ensures n <= |t|
    ensures forall i :: 0 <= i < n ==> p(t[i])
    ensures n == |t| || !p(t[n])
    decreases |t|
  {
    if t == [] || !p(t[0]) then 0 else 1 + Span(t[1..], p)
  }

  /** The first position at or after `from` that holds `c` (what `[^c]*c` runs up to). */
  function FindChar(s: string, c: char, from: nat): (r: Option<nat>)
    ensures r.Some? ==> from <= r.value < |s| && s[r.value] == c
    ensures r.Some? ==> forall j :: from <= j < r.value ==> s[j] != c
    ensures r.None? ==> forall j :: from <= j < |s| ==> s[j] != c
    decreases |s| - from
  {
    if from >= |s| then None
    else if s[from] == c then Some(from)
    else FindChar(s, c, from + 1)
  }

  /** The last position of `s` that holds `c`. */
  function LastFindChar(s: string, c: char): (r: Option<nat>)
    ensures r.Some? ==> r.value < |s| && s[r.value] == c
    ensures r.Some? ==> forall j :: r.value < j < |s| ==> s[j] != c
    ensures r.None? ==> forall j :: 0 <= j < |s| ==> s[j] != c
    decreases |s|
  {
    if s == [] then None
    else if s[|s| - 1] == c then Some(|s| - 1)
    else LastFindChar(s[..|s| - 1], c)
  }

  /** `t` begins with `lit`. */
  predicate StartsWith(t: string, lit: string) {
    |lit| <= |t| && t[..|lit|] == lit
  }

  /** `pat` occurs in `s` at position `i`. */
  predicate Occurs(s: string, pat: string, i: nat) {
    i + |pat| <= |s| && s[i..i + |pat|] == pat
  }

  /** `String.prototype.indexOf(pat, from)`: the first occurrence at or after `from`. */
  function IndexOf(s: string, pat: string, from: nat := 0): (r: Option<nat>)
    ensures r.Some? ==> from <= r.value && Occurs(s, pat, r.value)
    ensures r.Some? ==> forall j :: from <= j < r.value ==> !Occurs(s, pat, j)
    ensures r.None? ==> forall j :: from <= j ==> !Occurs(s, pat, j)
    decreases |s| - from
  {
    if from + |pat| > |s| then None
    else if s[from..from + |pat|] == pat then Some(from)
    else IndexOf(s, pat, from + 1)
  }

  /**
   * The replacement text that `String.prototype.replace` inserts when the
   * pattern is a string: `$$` stands for `$`, `$&` for the matched text,
   * `` $` `` for the text before the match and `$'` for the text after it;
   * every other `$` (`$1`, `$<`, a final `$`) is kept as it is, since a
   * string pattern has no capture groups.
   */
  function Substitution(rep: string, matched: string, before: string, after: string): string
    decreases |rep|
  {
    if rep == [] then []
    else if rep[0] == '$' && |rep| >= 2 && rep[1] in "$&`'" then
      (match rep[1]
       case '$' => "$"
       case '&' => matched
       case '`' => before
       case _ => after)
      + Substitution(rep[2..], matched, before, after)
    else [rep[0]] + Substitution(rep[1..], matched, before, after)
  }

  lemma {:induction false} SubstitutionWithoutDollar(rep: string, matched: string, before: string, after: string)
    requires '$' !in rep
    ensures Substitution(rep, matched, before, after) == rep
    decreases |rep|
  {
    if rep != [] {
      assert rep[0] != '$';
      assert '$' !in rep[1..];
      SubstitutionWithoutDollar(rep[1..], matched, before, after);
    }
  }

  /** A replacement that starts with text free of `$` inserts that text as it is. */
  lemma {:induction false} SubstitutionPrefix(a: string, b: string, matched: string, before: string, after: string)
    requires '$' !in a
    ensures Substitution(a + b, matched, before, after) == a + Substitution(b, matched, before, after)
    decreases |a|
  {
    if a == [] {
      assert a + b == b;
    } else {
      assert (a + b)[0] == a[0] && a[0] != '$';
      assert (a + b)[1..] == a[1..] + b;
      assert '$' !in a[1..];
      SubstitutionPrefix(a[1..], b, matched, before, after);
      assert a == [a[0]] + a[1..];
    }
  }

  /** `$&` in a replacement stands for the matched text. */
  lemma SubstitutionMatched(b: string, matched: string, before: string, after: string)
    ensures Substitution("$&" + b, matched, before, after) == matched + Substitution(b, matched, before, after)
  {
    var r := "$&" + b;
    assert r[0] == '$' && r[1] == '&' && r[2..] == b;
  }

  /** `s.replace(pat, rep)` with a string `pat`, as JavaScript evaluates it. */
  function ReplaceStringJs(s: string, pat: string, rep: string): string {
    match IndexOf(s, pat)
    case None => s
    case Some(i) =>
      s[..i] + Substitution(rep, pat, s[..i], s[i + |pat|..]) + s[i + |pat|..]
  }

  /** Where `pat` first occurs at `i`, JavaScript's replace splices the substituted replacement in there. */
  lemma ReplaceStringJsAt(s: string, pat: string, rep: string, i: nat)
    requires IndexOf(s, pat) == Some(i)
    ensures i + |pat| <= |s|
    ensures ReplaceStringJs(s, pat, rep) == s[..i] + Substitution(rep, pat, s[..i], s[i + |pat|..]) + s[i + |pat|..]
  {
  }

  /** Replaces the first occurrence of `pat` by `rep` taken literally. */
  function ReplaceString(s: string, pat: string, rep: string): string {
    match IndexOf(s, pat)
    case None => s
    case Some(i) => s[..i] + rep + s[i + |pat|..]
  }

  /** Without a `$` in the replacement, JavaScript's replace inserts it literally. */
  lemma ReplaceStringJsLiteral(s: string, pat: string, rep: string)
    requires '$' !in rep
    ensures ReplaceStringJs(s, pat, rep) == ReplaceString(s, pat, rep)
  {
    if IndexOf(s, pat).Some? {
      var i := IndexOf(s, pat).value;
      SubstitutionWithoutDollar(rep, pat, s[..i], s[i + |pat|..]);
    }
  }

  /** `a` is obtained from `b` by deleting characters. */
  ghost predicate IsSubsequence(a: string, b: string)
    decreases |b|
  {
    if a == [] then true
    else if b == [] then false
    else (a[0] == b[0] && IsSubsequence(a[1..], b[1..])) || IsSubsequence(a, b[1..])
  }

  lemma {:induction false} SubsequenceLength(a: string, b: string)
    requires IsSubsequence(a, b)
    ensures |a| <= |b|
    decreases |b|
  {
    if a != [] {
      if a[0] == b[0] && IsSubsequence(a[1..], b[1..]) {
        SubsequenceLength(a[1..], b[1..]);
      } else {
        SubsequenceLength(a, b[1..]);
      }
    }
  }

  lemma {:induction false} SubsequenceRefl(a: string)
    ensures IsSubsequence(a, a)
    decreases |a|
  {
    if a != [] {
      SubsequenceRefl(a[1..]);
    }
  }

  lemma {:induction false} SubsequencePrepend(a: string, x: string, b: string)
    requires IsSubsequence(a, b)
    ensures IsSubsequence(a, x + b)
    decreases |x|
  {
    if x == [] {
      assert x + b == b;
    } else if a != [] {
      SubsequencePrepend(a, x[1..], b);
      assert (x + b)[1..] == x[1..] + b;
    }
  }

  lemma {:induction false} SubsequenceConcat(a1: string, b1: string, a2: string, b2: string)
    requires IsSubsequence(a1, b1) && IsSubsequence(a2, b2)
    ensures IsSubsequence(a1 + a2, b1 + b2)
    decreases |b1|
  {
    if a1 == [] {
      assert a1 + a2 == a2;
      SubsequencePrepend(a2, b1, b2);
    } else {
      assert (b1 + b2)[1..] == b1[1..] + b2;
      if a1[0] == b1[0] && IsSubsequence(a1[1..], b1[1..]) {
        SubsequenceConcat(a1[1..], b1[1..], a2, b2);
        assert (a1 + a2)[1..] == a1[1..] + a2;
      } else {
        SubsequenceConcat(a1, b1[1..], a2, b2);
      }
    }
  }

  lemma {:induction false} SubsequenceTrans(a: string, b: string, c: string)
    requires IsSubsequence(a, b) && IsSubsequence(b, c)
    ensures IsSubsequence(a, c)
    decreases |c|
  {
    if a != [] {
      SubsequenceLength(a, b);
      if IsSubsequence(b, c[1..]) {
        SubsequenceTrans(a, b, c[1..]);
      } else if a[0] == b[0] && IsSubsequence(a[1..], b[1..]) {
        SubsequenceTrans(a[1..], b[1..], c[1..]);
      } else {
        SubsequenceTrans(a, b[1..], c[1..]);
      }
    }
  }

  /** Deleting the region `s[i..j]` leaves a subsequence of `s`. */
  lemma DeletionIsSubsequence(s: string, i: nat, j: nat)
    requires i <= j <= |s|
    ensures IsSubsequence(s[..i] + s[j..], s)
  {
    SubsequenceRefl(s[..i]);
    SubsequenceRefl(s[j..]);
    SubsequencePrepend(s[j..], s[i..j], s[j..]);
    SubsequenceConcat(s[..i], s[..i], s[j..], s[i..j] + s[j..]);
    assert s[..i] + (s[i..j] + s[j..]) == s;
  }
}

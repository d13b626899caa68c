/**
 * A regular expression applied with `String.prototype.replace`. Each
 * pattern of the build script is written as a Matcher: tried on the text
 * from one position on, it gives the length of the match there and the text
 * that replaces it. Without the `g` flag the leftmost match is replaced;
 * with it the search resumes after each match, as JavaScript does.
 */
module Scanner {
  import opened Text

  type Matcher = string -> Option<(nat, string)>

  /** Every match consumes at least one character and stays inside the text. */
  ghost predicate Consumes(m: Matcher) {
    forall t {:trigger m(t)} :: m(t).Some? ==> 0 < m(t).value.0 <= |t|
  }

  /** What replaces a match is a subsequence of the matched text. */
  ghost predicate OnlyDeletes(m: Matcher) {
    forall t {:trigger m(t)} :: m(t).Some? ==> m(t).value.0 <= |t| && IsSubsequence(m(t).value.1, t[..m(t).value.0])
  }

  /** The first position at or after `from` where the pattern matches (`LeftmostSpec` says so). */
  function Leftmost<M>(t: string, m: string -> Option<M>, from: nat := 0): Option<nat>
    decreases |t| - from
  {
    if from >= |t| then None
    else if m(t[from..]).Some? then Some(from)
    else Leftmost(t, m, from + 1)
  }

  /** The search finds a match exactly when there is one, and none of the positions it passes over matches. */
  lemma {:induction false} LeftmostSpec<M>(t: string, m: string -> Option<M>, from: nat)
    ensures Leftmost(t, m, from).Some? ==>
      var i := Leftmost(t, m, from).value;
      from <= i < |t| && m(t[i..]).Some? && forall j :: from <= j < i ==> m(t[j..]).None?
    ensures Leftmost(t, m, from).None? ==> forall j :: from <= j < |t| ==> m(t[j..]).None?
    decreases |t| - from
  {
    if from < |t| && m(t[from..]).None? {
      LeftmostSpec(t, m, from + 1);
    }
  }

  /** Where the search stops: at or after the start, inside the text, at a match. */
  lemma LeftmostInRange<M>(t: string, m: string -> Option<M>, from: nat)
    ensures Leftmost(t, m, from).Some? ==>
      from <= Leftmost(t, m, from).value < |t| && m(t[Leftmost(t, m, from).value..]).Some?
  {
    LeftmostSpec(t, m, from);
  }

  /** `t.replace(re, …)` for a pattern `re` without the `g` flag. */
  function ReplaceFirst(t: string, m: Matcher): (r: string)
    requires Consumes(m)
  {
    LeftmostSpec(t, m, 0);
    match Leftmost(t, m)
    case None => t
    case Some(i) => t[..i] + m(t[i..]).value.1 + t[i + m(t[i..]).value.0..]
  }

  /** Without the `g` flag only the leftmost match is replaced: the text before it and after it is kept. */
  lemma ReplaceFirstAt(t: string, m: Matcher, i: nat)
    requires Consumes(m)
    requires i < |t| && m(t[i..]).Some? && NoMatchBefore(t, m, i)
    ensures var (n, r) := m(t[i..]).value;
            i + n <= |t| && ReplaceFirst(t, m) == t[..i] + r + t[i + n..]
  {
    LeftmostSpec(t, m, 0);
  }

  /** Where the pattern matches nowhere, the replace changes nothing. */
  lemma ReplaceFirstNoMatch(t: string, m: Matcher)
    requires Consumes(m)
    requires NoMatchBefore(t, m, |t|)
    ensures ReplaceFirst(t, m) == t
  {
    LeftmostSpec(t, m, 0);
  }

  /** `t.replace(re, …)` for a pattern `re` with the `g` flag. */
  function ReplaceAll(t: string, m: Matcher): string
    requires Consumes(m)
    decreases |t|
  {
    if t == [] then []
    else match m(t)
      case Some((n, r)) => r + ReplaceAll(t[n..], m)
      case None => [t[0]] + ReplaceAll(t[1..], m)
  }

  /** Where the pattern matches nowhere, the global replace changes nothing. */
  lemma {:induction false} ReplaceAllNoMatch(t: string, m: Matcher)
    requires Consumes(m)
    requires NoMatchBefore(t, m, |t|)
    ensures ReplaceAll(t, m) == t
    decreases |t|
  {
    if t != [] {
      ReplaceAllUnmatched(t, m, |t|);
      ReplaceAllNoMatch(t[1..], m);
    }
  }

  /** The pattern matches at no position before `i`. */
  ghost predicate NoMatchBefore(t: string, m: Matcher, i: nat) {
    forall j {:trigger m(t[j..])} :: 0 <= j < i && j <= |t| ==> m(t[j..]).None?
  }

  /** Text before the first match is copied unchanged. */
  lemma {:induction false} ReplaceAllSkip(t: string, m: Matcher, i: nat)
    requires Consumes(m)
    requires i <= |t| && NoMatchBefore(t, m, i)
    ensures ReplaceAll(t, m) == t[..i] + ReplaceAll(t[i..], m)
    decreases i
  {
    if i == 0 {
      assert t[..0] == [];
      assert t[0..] == t;
    } else {
      var u := t[1..];
      ReplaceAllUnmatched(t, m, i);
      ReplaceAllSkip(u, m, i - 1);
      calc {
        ReplaceAll(t, m);
        [t[0]] + ReplaceAll(u, m);
        [t[0]] + (u[..i - 1] + ReplaceAll(u[i - 1..], m));
        { assert u[i - 1..] == t[i..]; assert [t[0]] + u[..i - 1] == t[..i]; }
        t[..i] + ReplaceAll(t[i..], m);
      }
    }
  }

  /** One unmatched character is copied, and the rest is scanned from the next position. */
  lemma ReplaceAllUnmatched(t: string, m: Matcher, i: nat)
    requires Consumes(m)
    requires 0 < i <= |t| && NoMatchBefore(t, m, i)
    ensures ReplaceAll(t, m) == [t[0]] + ReplaceAll(t[1..], m)
    ensures NoMatchBefore(t[1..], m, i - 1)
  {
    assert t[0..] == t;
    var u := t[1..];
    forall j | 0 <= j < i - 1 && j <= |u| ensures m(u[j..]).None? {
      assert u[j..] == t[j + 1..];
    }
  }

  /**
   * The global replace, read from its first match at `i`: the text before
   * the match, its replacement, then the replace resumed after the match.
   */
  lemma {:induction false} ReplaceAllAtFirstMatch(t: string, m: Matcher, i: nat)
    requires Consumes(m)
    requires i < |t| && m(t[i..]).Some? && NoMatchBefore(t, m, i)
    ensures var (n, r) := m(t[i..]).value;
            i + n <= |t| &&
            ReplaceAll(t, m) == t[..i] + r + ReplaceAll(t[i + n..], m)
  {
    ReplaceAllSkip(t, m, i);
    var u := t[i..];
    var (n, r) := m(u).value;
    ReplaceAllMatchHere(u, m);
    assert u[n..] == t[i + n..];
    var rest := ReplaceAll(t[i + n..], m);
    assert t[..i] + (r + rest) == t[..i] + r + rest;
  }

  /** The same, for a first match whose length and replacement are known. */
  lemma {:induction false} ReplaceAllAtMatch(t: string, m: Matcher, i: nat, n: nat, r: string)
    requires Consumes(m)
    requires i < |t| && m(t[i..]) == Some((n, r)) && NoMatchBefore(t, m, i)
    ensures i + n <= |t| && ReplaceAll(t, m) == t[..i] + r + ReplaceAll(t[i + n..], m)
  {
    ReplaceAllAtFirstMatch(t, m, i);
  }

  /** A match at the front is replaced, and the scan resumes after it. */
  lemma ReplaceAllMatchHere(u: string, m: Matcher)
    requires Consumes(m) && m(u).Some?
    ensures m(u).value.0 <= |u|
    ensures ReplaceAll(u, m) == m(u).value.1 + ReplaceAll(u[m(u).value.0..], m)
  {
  }

  /** A global replace whose replacements only delete leaves a subsequence. */
  lemma {:induction false} ReplaceAllDeletes(t: string, m: Matcher)
    requires Consumes(m) && OnlyDeletes(m)
    ensures IsSubsequence(ReplaceAll(t, m), t)
    decreases |t|
  {
    if t != [] {
      match m(t)
      case Some((n, r)) =>
        ReplaceAllDeletes(t[n..], m);
        SubsequenceConcat(r, t[..n], ReplaceAll(t[n..], m), t[n..]);
        assert t[..n] + t[n..] == t;
      case None =>
        ReplaceAllDeletes(t[1..], m);
        SubsequenceRefl([t[0]]);
        SubsequenceConcat([t[0]], [t[0]], ReplaceAll(t[1..], m), t[1..]);
        assert [t[0]] + t[1..] == t;
    }
  }

  /** So does a replace of the first match. */
  lemma ReplaceFirstDeletes(t: string, m: Matcher)
    requires Consumes(m) && OnlyDeletes(m)
    ensures IsSubsequence(ReplaceFirst(t, m), t)
  {
    LeftmostSpec(t, m, 0);
    match Leftmost(t, m)
    case None => SubsequenceRefl(t);
    case Some(i) =>
      var (n, r) := m(t[i..]).value;
      assert IsSubsequence(r, t[i..][..n]);
      SplicePreservesSubsequence(t, i, n, r);
  }

  /** Putting a subsequence of `t[i..i + n]` in its place leaves a subsequence of `t`. */
  lemma SplicePreservesSubsequence(t: string, i: nat, n: nat, r: string)
    requires i + n <= |t|
    requires IsSubsequence(r, t[i..][..n])
    ensures IsSubsequence(t[..i] + r + t[i + n..], t)
  {
    assert t[i..][..n] == t[i..i + n];
    SubsequenceRefl(t[..i]);
    SubsequenceRefl(t[i + n..]);
    SubsequenceConcat(r, t[i..i + n], t[i + n..], t[i + n..]);
    SubsequenceConcat(t[..i], t[..i], r + t[i + n..], t[i..i + n] + t[i + n..]);
    assert t[..i] + (t[i..i + n] + t[i + n..]) == t;
    assert t[..i] + r + t[i + n..] == t[..i] + (r + t[i + n..]);
  }

  /** A global replace whose replacements are never longer than what they replace does not lengthen the text. */
  lemma {:induction false} ReplaceAllNotLonger(t: string, m: Matcher)
    requires Consumes(m)
    requires forall u :: m(u).Some? ==> |m(u).value.1| <= m(u).value.0
    ensures |ReplaceAll(t, m)| <= |t|
    decreases |t|
  {
    if t != [] {
      match m(t)
      case Some((n, r)) => ReplaceAllNotLonger(t[n..], m);
      case None => ReplaceAllNotLonger(t[1..], m);
    }
  }

  /**
   * Every character of a global replace's result satisfies `p` when every
   * replacement does and every character left unmatched does.
   */
  lemma {:induction false} ReplaceAllKeeps(t: string, m: Matcher, p: char -> bool)
    requires Consumes(m)
    requires forall u :: m(u).Some? ==> forall c :: c in m(u).value.1 ==> p(c)
    requires forall j :: 0 <= j < |t| && m(t[j..]).None? ==> p(t[j])
    ensures forall c :: c in ReplaceAll(t, m) ==> p(c)
    decreases |t|
  {
    if t != [] {
      assert t[0..] == t;
      match m(t)
      case Some((n, r)) =>
        forall j | 0 <= j < |t[n..]| && m(t[n..][j..]).None? ensures p(t[n..][j]) {
          assert t[n..][j..] == t[n + j..];
        }
        ReplaceAllKeeps(t[n..], m, p);
      case None =>
        forall j | 0 <= j < |t[1..]| && m(t[1..][j..]).None? ensures p(t[1..][j]) {
          assert t[1..][j..] == t[1 + j..];
        }
        ReplaceAllKeeps(t[1..], m, p);
    }
  }

  /** A search that passes only over positions where nothing matches ends where a search from the last of them would. */
  lemma {:induction false} LeftmostSkips<M>(t: string, m: string -> Option<M>, from: nat, k: nat)
    requires from <= k <= |t|
    requires forall j :: from <= j < k ==> m(t[j..]).None?
    ensures Leftmost(t, m, from) == Leftmost(t, m, k)
    decreases k - from
  {
    if from < k {
      LeftmostSkips(t, m, from + 1, k);
    }
  }

  /** Two texts that end alike are searched alike from where their common end starts. */
  lemma {:induction false} LeftmostOnSameSuffix<M>(t: string, k: nat, u: string, k0: nat, m: string -> Option<M>)
    requires k <= |t| && k0 <= |u| && t[k..] == u[k0..]
    ensures Leftmost(t, m, k).None? == Leftmost(u, m, k0).None?
    ensures Leftmost(u, m, k0).Some? ==> Leftmost(t, m, k).value + k0 == Leftmost(u, m, k0).value + k
    decreases |u| - k0
  {
    assert |t| - k == |u| - k0;
    if k0 < |u| && m(u[k0..]).None? {
      assert t[k + 1..] == t[k..][1..] && u[k0 + 1..] == u[k0..][1..];
      LeftmostOnSameSuffix(t, k + 1, u, k0 + 1, m);
    }
  }
}

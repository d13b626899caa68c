/**
 * The backtracking regular-expression engine of JavaScript, for the
 * fragment the build script's later patterns use: literals, one character
 * of a class, and greedy or lazy repetition of a class. A pattern is a
 * sequence of elements tried from a start position; a match records where
 * each element ends, which gives the capture groups. Repetitions are tried
 * in JavaScript's order: a greedy one from its longest run down, a lazy one
 * from the empty run up, each time trying the rest of the pattern.
 */
module Regex {
  import opened Text

  /** `[\s\S]`, `\s`, or `[^c]`. */
  datatype Class = AnyChar | Space | NotChar(c: char)

  /** A literal, one character of a class, `cls*` (greedy) or `cls*?` (lazy). */
  datatype Elem = Lit(text: string) | One(cls: Class) | Greedy(cls: Class) | Lazy(cls: Class)

  /** Two characters are equal, or with the `i` flag equal up to ASCII case. */
  predicate SameChar(x: char, y: char, icase: bool) {
    if icase then LowerChar(x) == LowerChar(y) else x == y
  }

  predicate InClass(cls: Class, x: char, icase: bool) {
    match cls
    case AnyChar => true
    case Space => IsSpace(x)
    case NotChar(c) => !SameChar(x, c, icase)
  }

  /** The literal `lit` occurs at `i`. */
  predicate LitAt(u: string, lit: string, i: nat, icase: bool) {
    i + |lit| <= |u| && forall j :: 0 <= j < |lit| ==> SameChar(u[i + j], lit[j], icase)
  }

  /** Where the longest run of characters of `cls` starting at `i` ends. */
  function ClassRun(u: string, i: nat, cls: Class, icase: bool): (r: nat)
    requires i <= |u|
    ensures i <= r <= |u|
    decreases |u| - i
  {
    if i == |u| || !InClass(cls, u[i], icase) then i else ClassRun(u, i + 1, cls, icase)
  }

  /** Every character of `u[a..b]` belongs to `cls`. */
  predicate AllIn(u: string, a: nat, b: nat, cls: Class, icase: bool) {
    a <= b <= |u| && forall k :: a <= k < b ==> InClass(cls, u[k], icase)
  }

  /** The run is made of characters of the class, and no run from `i` is longer. */
  lemma {:induction false} ClassRunSpec(u: string, i: nat, cls: Class, icase: bool, b: nat)
    requires i <= |u|
    ensures AllIn(u, i, ClassRun(u, i, cls, icase), cls, icase)
    ensures AllIn(u, i, b, cls, icase) ==> b <= ClassRun(u, i, cls, icase)
    decreases |u| - i
  {
    if i < |u| && InClass(cls, u[i], icase) {
      ClassRunSpec(u, i + 1, cls, icase, b);
    }
  }

  function Then(j: nat, r: Option<seq<nat>>): Option<seq<nat>> {
    match r
    case None => None
    case Some(rs) => Some([j] + rs)
  }

  /**
   * The pattern `ps` tried at `i`: for the first match in the engine's order,
   * the position where each element ends.
   */
  function Run(ps: seq<Elem>, u: string, i: nat, icase: bool): Option<seq<nat>>
    requires i <= |u|
    decreases |ps|, 1, 0
  {
    if ps == [] then Some([])
    else match ps[0]
      case Lit(s) =>
        if LitAt(u, s, i, icase) then Then(i + |s|, Run(ps[1..], u, i + |s|, icase)) else None
      case One(cls) =>
        if i < |u| && InClass(cls, u[i], icase) then Then(i + 1, Run(ps[1..], u, i + 1, icase)) else None
      case Greedy(cls) => TryDown(ps[1..], u, i, ClassRun(u, i, cls, icase), icase)
      case Lazy(cls) => TryUp(ps[1..], u, i, ClassRun(u, i, cls, icase), icase)
  }

  /** A greedy repetition: the rest of the pattern tried after the run ending at `j`, then `j - 1`, down to `lo`. */
  function TryDown(rest: seq<Elem>, u: string, lo: nat, j: nat, icase: bool): Option<seq<nat>>
    requires lo <= j <= |u|
    decreases |rest| + 1, 0, j - lo
  {
    match Run(rest, u, j, icase)
    case Some(rs) => Some([j] + rs)
    case None => if j == lo then None else TryDown(rest, u, lo, j - 1, icase)
  }

  /** A lazy repetition: the rest of the pattern tried after the run ending at `j`, then `j + 1`, up to `hi`. */
  function TryUp(rest: seq<Elem>, u: string, j: nat, hi: nat, icase: bool): Option<seq<nat>>
    requires j <= hi <= |u|
    decreases |rest| + 1, 0, hi - j
  {
    match Run(rest, u, j, icase)
    case Some(rs) => Some([j] + rs)
    case None => if j == hi then None else TryUp(rest, u, j + 1, hi, icase)
  }

  /** The greedy search stops at the longest run after which the rest matches. */
  lemma {:induction false} TryDownSpec(rest: seq<Elem>, u: string, lo: nat, j: nat, icase: bool)
    requires lo <= j <= |u|
    ensures var r := TryDown(rest, u, lo, j, icase);
      r.Some? ==> (|r.value| > 0 && lo <= r.value[0] <= j
        && Run(rest, u, r.value[0], icase) == Some(r.value[1..])
        && forall k :: r.value[0] < k <= j ==> Run(rest, u, k, icase).None?)
    ensures TryDown(rest, u, lo, j, icase).None? ==> forall k :: lo <= k <= j ==> Run(rest, u, k, icase).None?
    decreases j - lo
  {
    if Run(rest, u, j, icase).None? && j > lo {
      TryDownSpec(rest, u, lo, j - 1, icase);
    }
  }

  /** The lazy search stops at the shortest run after which the rest matches. */
  lemma {:induction false} TryUpSpec(rest: seq<Elem>, u: string, j: nat, hi: nat, icase: bool)
    requires j <= hi <= |u|
    ensures var r := TryUp(rest, u, j, hi, icase);
      r.Some? ==> (|r.value| > 0 && j <= r.value[0] <= hi
        && Run(rest, u, r.value[0], icase) == Some(r.value[1..])
        && forall k :: j <= k < r.value[0] ==> Run(rest, u, k, icase).None?)
    ensures TryUp(rest, u, j, hi, icase).None? ==> forall k :: j <= k <= hi ==> Run(rest, u, k, icase).None?
    decreases hi - j
  {
    if Run(rest, u, j, icase).None? && j < hi {
      TryUpSpec(rest, u, j + 1, hi, icase);
    }
  }

  /** Element `e` matches `u[a..b]`. */
  predicate ElemMatches(e: Elem, u: string, a: nat, b: nat, icase: bool) {
    a <= b <= |u| && ElemText(e, u, a, b, icase)
  }

  predicate ElemText(e: Elem, u: string, a: nat, b: nat, icase: bool)
    requires a <= b <= |u|
  {
    match e
    case Lit(s) => b == a + |s| && LitAt(u, s, a, icase)
    case One(cls) => b == a + 1 && InClass(cls, u[a], icase)
    case Greedy(cls) => AllIn(u, a, b, cls, icase)
    case Lazy(cls) => AllIn(u, a, b, cls, icase)
  }

  /** Where element `k` of a match starts. */
  function Start(i: nat, r: seq<nat>, k: nat): nat
    requires k <= |r|
  {
    if k == 0 then i else r[k - 1]
  }

  /** `r` lists the ends of the elements of `ps` in some match from `i`, whether or not the engine picks it. */
  predicate Matches(ps: seq<Elem>, u: string, i: nat, r: seq<nat>, icase: bool) {
    |r| == |ps| && forall k {:trigger ps[k]} :: 0 <= k < |ps| ==> ElemMatches(ps[k], u, Start(i, r, k), r[k], icase)
  }

  /** A match is its first element's match followed by a match of the rest. */
  lemma MatchesCons(ps: seq<Elem>, u: string, i: nat, r: seq<nat>, icase: bool)
    requires |ps| > 0 && |r| > 0
    ensures Matches(ps, u, i, r, icase) <==>
      ElemMatches(ps[0], u, i, r[0], icase) && Matches(ps[1..], u, r[0], r[1..], icase)
  {
    if ElemMatches(ps[0], u, i, r[0], icase) && Matches(ps[1..], u, r[0], r[1..], icase) {
      forall k | 0 <= k < |ps| ensures ElemMatches(ps[k], u, Start(i, r, k), r[k], icase) {
        if k > 0 {
          assert ps[k] == ps[1..][k - 1] && r[k] == r[1..][k - 1];
          assert Start(i, r, k) == Start(r[0], r[1..], k - 1);
        }
      }
    }
    if Matches(ps, u, i, r, icase) {
      assert ElemMatches(ps[0], u, Start(i, r, 0), r[0], icase);
      forall k | 0 <= k < |ps| - 1 ensures ElemMatches(ps[1..][k], u, Start(r[0], r[1..], k), r[1..][k], icase) {
        assert ElemMatches(ps[k + 1], u, Start(i, r, k + 1), r[k + 1], icase);
      }
    }
  }

  /** What the engine returns is a match. */
  lemma {:induction false} RunSound(ps: seq<Elem>, u: string, i: nat, icase: bool)
    requires i <= |u| && Run(ps, u, i, icase).Some?
    ensures Matches(ps, u, i, Run(ps, u, i, icase).value, icase)
    decreases |ps|
  {
    if ps != [] {
      var r := Run(ps, u, i, icase).value;
      match ps[0]
      case Lit(s) =>
        RunSound(ps[1..], u, i + |s|, icase);
        MatchesCons(ps, u, i, r, icase);
      case One(cls) =>
        RunSound(ps[1..], u, i + 1, icase);
        MatchesCons(ps, u, i, r, icase);
      case Greedy(cls) =>
        var n := ClassRun(u, i, cls, icase);
        TryDownSpec(ps[1..], u, i, n, icase);
        ClassRunSpec(u, i, cls, icase, 0);
        RunSound(ps[1..], u, r[0], icase);
        MatchesCons(ps, u, i, r, icase);
      case Lazy(cls) =>
        var n := ClassRun(u, i, cls, icase);
        TryUpSpec(ps[1..], u, i, n, icase);
        ClassRunSpec(u, i, cls, icase, 0);
        RunSound(ps[1..], u, r[0], icase);
        MatchesCons(ps, u, i, r, icase);
    }
  }

  /** A match of two patterns in a row is a match of the first followed by a match of the second. */
  lemma MatchesAppend(ps1: seq<Elem>, ps2: seq<Elem>, u: string, i: nat, r: seq<nat>, icase: bool)
    requires |r| == |ps1| + |ps2|
    ensures Matches(ps1 + ps2, u, i, r, icase) <==>
      Matches(ps1, u, i, r[..|ps1|], icase) && Matches(ps2, u, Start(i, r, |ps1|), r[|ps1|..], icase)
  {
    var ps := ps1 + ps2;
    var m := |ps1|;
    if Matches(ps, u, i, r, icase) {
      forall k | 0 <= k < m ensures ElemMatches(ps1[k], u, Start(i, r[..m], k), r[..m][k], icase) {
        assert ps[k] == ps1[k];
      }
      forall k | 0 <= k < |ps2| ensures ElemMatches(ps2[k], u, Start(Start(i, r, m), r[m..], k), r[m..][k], icase) {
        assert ps[m + k] == ps2[k];
      }
    }
    if Matches(ps1, u, i, r[..m], icase) && Matches(ps2, u, Start(i, r, m), r[m..], icase) {
      forall k | 0 <= k < |ps| ensures ElemMatches(ps[k], u, Start(i, r, k), r[k], icase) {
        if k < m {
          assert ps1[k] == ps[k];
        } else {
          assert ps2[k - m] == ps[k];
        }
      }
    }
  }

  /** The engine fails only where the pattern has no match at all. */
  lemma {:induction false} RunComplete(ps: seq<Elem>, u: string, i: nat, r: seq<nat>, icase: bool)
    requires i <= |u| && Matches(ps, u, i, r, icase)
    ensures Run(ps, u, i, icase).Some?
    decreases |ps|
  {
    if ps != [] {
      MatchesCons(ps, u, i, r, icase);
      RunComplete(ps[1..], u, r[0], r[1..], icase);
      match ps[0]
      case Lit(s) =>
      case One(cls) =>
      case Greedy(cls) =>
        ClassRunSpec(u, i, cls, icase, r[0]);
        TryDownSpec(ps[1..], u, i, ClassRun(u, i, cls, icase), icase);
      case Lazy(cls) =>
        ClassRunSpec(u, i, cls, icase, r[0]);
        TryUpSpec(ps[1..], u, i, ClassRun(u, i, cls, icase), icase);
    }
  }

  /** The engine's first step: the first element ends at `r[0]`, and the rest is the engine's run from there. */
  lemma RunHead(ps: seq<Elem>, u: string, i: nat, icase: bool)
    requires i <= |u| && |ps| > 0 && Run(ps, u, i, icase).Some?
    ensures var r := Run(ps, u, i, icase).value;
      |r| > 0 && i <= r[0] <= |u| && Run(ps[1..], u, r[0], icase) == Some(r[1..])
  {
    match ps[0]
    case Lit(s) =>
    case One(cls) =>
    case Greedy(cls) => TryDownSpec(ps[1..], u, i, ClassRun(u, i, cls, icase), icase);
    case Lazy(cls) => TryUpSpec(ps[1..], u, i, ClassRun(u, i, cls, icase), icase);
  }

  /** From any element on, the match found is the engine's run of the remaining elements. */
  lemma {:induction false} RunSuffix(ps: seq<Elem>, u: string, i: nat, icase: bool, k: nat)
    requires i <= |u| && k <= |ps| && Run(ps, u, i, icase).Some?
    ensures var r := Run(ps, u, i, icase).value;
      |r| == |ps| && Start(i, r, k) <= |u| && Run(ps[k..], u, Start(i, r, k), icase) == Some(r[k..])
    decreases k
  {
    var r := Run(ps, u, i, icase).value;
    RunLength(ps, u, i, icase);
    if k > 0 {
      RunSuffix(ps, u, i, icase, k - 1);
      var j := Start(i, r, k - 1);
      RunHead(ps[k - 1..], u, j, icase);
      assert ps[k - 1..][1..] == ps[k..];
      assert r[k - 1..][1..] == r[k..];
    } else {
      assert ps[0..] == ps && r[0..] == r;
    }
  }

  lemma {:induction false} RunLength(ps: seq<Elem>, u: string, i: nat, icase: bool)
    requires i <= |u| && Run(ps, u, i, icase).Some?
    ensures |Run(ps, u, i, icase).value| == |ps|
    decreases |ps|
  {
    if ps != [] {
      RunHead(ps, u, i, icase);
      RunLength(ps[1..], u, Run(ps, u, i, icase).value[0], icase);
    }
  }

  /**
   * A lazy repetition in a match is as short as the rest of the pattern
   * allows: ending it any earlier leaves the rest without a match.
   */
  lemma LazyShortest(ps: seq<Elem>, u: string, i: nat, icase: bool, k: nat)
    requires i <= |u| && k < |ps| && ps[k].Lazy? && Run(ps, u, i, icase).Some?
    ensures var r := Run(ps, u, i, icase).value; var rest := ps[k + 1..];
      |r| == |ps| && forall j :: Start(i, r, k) <= j < r[k] && j <= |u| ==> Run(rest, u, j, icase).None?
  {
    var r := Run(ps, u, i, icase).value;
    RunSuffix(ps, u, i, icase, k);
    var a := Start(i, r, k);
    TryUpSpec(ps[k + 1..], u, a, ClassRun(u, a, ps[k].cls, icase), icase);
    assert ps[k..][0] == ps[k] && ps[k..][1..] == ps[k + 1..];
    assert r[k..][0] == r[k];
  }

  /**
   * A greedy repetition in a match is as long as the rest of the pattern
   * allows: any longer run of its class leaves the rest without a match.
   */
  lemma GreedyLongest(ps: seq<Elem>, u: string, i: nat, icase: bool, k: nat)
    requires i <= |u| && k < |ps| && ps[k].Greedy? && Run(ps, u, i, icase).Some?
    ensures var r := Run(ps, u, i, icase).value; var rest := ps[k + 1..];
      |r| == |ps| && forall j :: r[k] < j <= |u| && AllIn(u, Start(i, r, k), j, ps[k].cls, icase) ==>
        Run(rest, u, j, icase).None?
  {
    var r := Run(ps, u, i, icase).value;
    RunSuffix(ps, u, i, icase, k);
    var a := Start(i, r, k);
    var n := ClassRun(u, a, ps[k].cls, icase);
    TryDownSpec(ps[k + 1..], u, a, n, icase);
    assert ps[k..][0] == ps[k] && ps[k..][1..] == ps[k + 1..];
    assert r[k..][0] == r[k];
    forall j | r[k] < j <= |u| && AllIn(u, a, j, ps[k].cls, icase) ensures Run(ps[k + 1..], u, j, icase).None? {
      ClassRunSpec(u, a, ps[k].cls, icase, j);
    }
  }

  /** The positions of a match grow from the start to the end of the text. */
  lemma MatchesOrdered(ps: seq<Elem>, u: string, i: nat, r: seq<nat>, icase: bool)
    requires Matches(ps, u, i, r, icase)
    ensures forall a, b :: 0 <= a <= b < |r| ==> i <= r[a] <= r[b] <= |u|
  {
    forall a, b | 0 <= a <= b < |r| ensures i <= r[a] <= r[b] <= |u| {
      MatchesOrderedAt(ps, u, i, r, icase, a, b);
    }
  }

  lemma {:induction false} MatchesOrderedAt(ps: seq<Elem>, u: string, i: nat, r: seq<nat>, icase: bool, a: nat, b: nat)
    requires Matches(ps, u, i, r, icase) && a <= b < |r|
    ensures i <= r[a] <= r[b] <= |u|
    decreases b
  {
    MatchesStep(ps, u, i, r, icase, b);
    if b > 0 {
      MatchesOrderedAt(ps, u, i, r, icase, if a == b then b - 1 else a, b - 1);
    }
  }

  lemma MatchesStep(ps: seq<Elem>, u: string, i: nat, r: seq<nat>, icase: bool, k: nat)
    requires Matches(ps, u, i, r, icase) && k < |r|
    ensures Start(i, r, k) <= r[k] <= |u|
  {
    assert ElemMatches(ps[k], u, Start(i, r, k), r[k], icase);
  }

  /** `u` and `v` differ at most in the case of ASCII letters. */
  predicate SameFold(u: string, v: string) {
    |u| == |v| && forall i :: 0 <= i < |u| ==> LowerChar(u[i]) == LowerChar(v[i])
  }

  lemma InClassFold(cls: Class, x: char, y: char)
    requires LowerChar(x) == LowerChar(y)
    ensures InClass(cls, x, true) == InClass(cls, y, true)
  {
    LowerCharClasses(x);
    LowerCharClasses(y);
  }

  lemma {:induction false} ClassRunFold(u: string, v: string, i: nat, cls: Class)
    requires SameFold(u, v) && i <= |u|
    ensures ClassRun(u, i, cls, true) == ClassRun(v, i, cls, true)
    decreases |u| - i
  {
    if i < |u| {
      InClassFold(cls, u[i], v[i]);
      ClassRunFold(u, v, i + 1, cls);
    }
  }

  lemma LitAtFold(u: string, v: string, lit: string, i: nat)
    requires SameFold(u, v)
    ensures LitAt(u, lit, i, true) == LitAt(v, lit, i, true)
  {
    if i + |lit| <= |u| {
      forall j | 0 <= j < |lit| ensures SameChar(u[i + j], lit[j], true) == SameChar(v[i + j], lit[j], true) {
        var k := i + j;
        assert LowerChar(u[k]) == LowerChar(v[k]);
      }
    }
  }

  /**
   * With the `i` flag, texts that differ only in the case of letters are
   * matched alike: the engine gives the same positions for both.
   */
  lemma {:induction false} RunFold(ps: seq<Elem>, u: string, v: string, i: nat)
    requires SameFold(u, v) && i <= |u|
    ensures Run(ps, u, i, true) == Run(ps, v, i, true)
    decreases |ps|, 1, 0
  {
    if ps != [] {
      match ps[0]
      case Lit(s) =>
        LitAtFold(u, v, s, i);
        if LitAt(u, s, i, true) {
          RunFold(ps[1..], u, v, i + |s|);
        }
      case One(cls) =>
        if i < |u| {
          InClassFold(cls, u[i], v[i]);
          RunFold(ps[1..], u, v, i + 1);
        }
      case Greedy(cls) =>
        ClassRunFold(u, v, i, cls);
        TryDownFold(ps[1..], u, v, i, ClassRun(u, i, cls, true));
      case Lazy(cls) =>
        ClassRunFold(u, v, i, cls);
        TryUpFold(ps[1..], u, v, i, ClassRun(u, i, cls, true));
    }
  }

  lemma {:induction false} TryDownFold(rest: seq<Elem>, u: string, v: string, lo: nat, j: nat)
    requires SameFold(u, v) && lo <= j <= |u|
    ensures TryDown(rest, u, lo, j, true) == TryDown(rest, v, lo, j, true)
    decreases |rest| + 1, 0, j - lo
  {
    RunFold(rest, u, v, j);
    if j > lo {
      TryDownFold(rest, u, v, lo, j - 1);
    }
  }

  lemma {:induction false} TryUpFold(rest: seq<Elem>, u: string, v: string, j: nat, hi: nat)
    requires SameFold(u, v) && j <= hi <= |u|
    ensures TryUp(rest, u, j, hi, true) == TryUp(rest, v, j, hi, true)
    decreases |rest| + 1, 0, hi - j
  {
    RunFold(rest, u, v, j);
    if j < hi {
      TryUpFold(rest, u, v, j + 1, hi);
    }
  }
}

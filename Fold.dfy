/**
 * The reduction the solver applies at every level of its search:
 * `filter_map` over a list of candidates followed by
 * `fold(None, shorter_word_string)` (unbox/src/main.rs:89, 91, 180, 183-188).
 * A candidate list is modelled as a sequence of optional chains; `None`
 * entries are the ones `filter_map` drops.
 */
module Fold {
  import opened Options

  function Min(a: int, b: int): int { if a <= b then a else b }

  /**
   * `shorter_word_string`: the first argument is the best chain so far.
   * Some value always comes back; `next` replaces `prev` only when it is
   * strictly shorter, so on a tie the earlier chain is kept.
   */
  function Shorter<T>(prev: Option<seq<T>>, next: seq<T>): (r: Option<seq<T>>)
    ensures r.Some?
    ensures r.value == next || r == prev
    ensures prev.None? ==> r.value == next
    ensures prev.Some? ==> |r.value| == Min(|prev.value|, |next|)
    ensures prev.Some? && |prev.value| <= |next| ==> r == prev
  {
    match prev
    case None => Some(next)
    case Some(p) => Some(if |next| < |p| then next else p)
  }

  /**
   * `cands.filter_map(..).fold(acc, shorter_word_string)`.
   * The result is the accumulator or one of the candidates, it is no longer
   * than the accumulator nor than any candidate, and it is absent only when
   * the accumulator and every candidate are absent.
   */
  function FoldShorter<T>(cands: seq<Option<seq<T>>>, acc: Option<seq<T>>): (r: Option<seq<T>>)
    ensures r.Some? ==> r == acc || r in cands
    ensures acc.Some? ==> r.Some? && |r.value| <= |acc.value|
    ensures forall i | 0 <= i < |cands| && cands[i].Some? :: r.Some? && |r.value| <= |cands[i].value|
    ensures r.None? <==> acc.None? && forall i | 0 <= i < |cands| :: cands[i].None?
    decreases |cands|
  {
    if cands == [] then acc
    else
      var acc' := if cands[0].Some? then Shorter(acc, cands[0].value) else acc;
      FoldShorter(cands[1..], acc')
  }

  /** A present accumulator no candidate beats survives the fold. */
  lemma {:induction false} FoldShorterKeepsShortest<T>(cands: seq<Option<seq<T>>>, acc: Option<seq<T>>)
    requires acc.Some?
    requires forall j | 0 <= j < |cands| && cands[j].Some? :: |acc.value| <= |cands[j].value|
    ensures FoldShorter(cands, acc) == acc
    decreases |cands|
  {
    if cands != [] {
      forall j | 0 <= j < |cands[1..]| && cands[1..][j].Some?
        ensures |acc.value| <= |cands[1..][j].value|
      {
        assert cands[1..][j] == cands[j + 1];
      }
      FoldShorterKeepsShortest(cands[1..], acc);
    }
  }

  /**
   * Which shortest chain comes back: the earliest candidate of least length,
   * unless the accumulator is already at least as short. Every candidate
   * before `i` is strictly longer than `cands[i]` and none after it is
   * shorter, so the fold returns `cands[i]`.
   */
  lemma {:induction false} FoldShorterEarliest<T>(cands: seq<Option<seq<T>>>, acc: Option<seq<T>>, i: int)
    requires 0 <= i < |cands| && cands[i].Some?
    requires acc.Some? ==> |acc.value| > |cands[i].value|
    requires forall j | 0 <= j < i && cands[j].Some? :: |cands[j].value| > |cands[i].value|
    requires forall j | i < j < |cands| && cands[j].Some? :: |cands[j].value| >= |cands[i].value|
    ensures FoldShorter(cands, acc) == cands[i]
    decreases |cands|
  {
    var acc' := if cands[0].Some? then Shorter(acc, cands[0].value) else acc;
    if i == 0 {
      assert acc' == cands[0];
      forall j | 0 <= j < |cands[1..]| && cands[1..][j].Some?
        ensures |acc'.value| <= |cands[1..][j].value|
      {
        assert cands[1..][j] == cands[j + 1];
      }
      FoldShorterKeepsShortest(cands[1..], acc');
    } else {
      assert acc'.Some? ==> |acc'.value| > |cands[i].value|;
      assert cands[1..][i - 1] == cands[i];
      forall j | 0 <= j < i - 1 && cands[1..][j].Some?
        ensures |cands[1..][j].value| > |cands[i].value|
      {
        assert cands[1..][j] == cands[j + 1];
      }
      forall j | i - 1 < j < |cands[1..]| && cands[1..][j].Some?
        ensures |cands[1..][j].value| >= |cands[i].value|
      {
        assert cands[1..][j] == cands[j + 1];
      }
      FoldShorterEarliest(cands[1..], acc', i - 1);
    }
  }

  /**
   * Reference definition: the accumulator if it is present, otherwise the
   * first present candidate.
   */
  function FirstSome<T>(cands: seq<Option<seq<T>>>, acc: Option<seq<T>>): Option<seq<T>>
    decreases |cands|
  {
    if acc.Some? || cands == [] then acc
    else FirstSome(cands[1..], cands[0])
  }

  /** All present candidates (and the accumulator, when present) have length `n`. */
  predicate AllOfLength<T>(cands: seq<Option<seq<T>>>, acc: Option<seq<T>>, n: nat) {
    (acc.Some? ==> |acc.value| == n) &&
    forall i | 0 <= i < |cands| && cands[i].Some? :: |cands[i].value| == n
  }

  /**
   * When every candidate has the same length the "shorter" fold never
   * replaces what it holds: it returns the first candidate found.
   */
  lemma {:induction false} EqualLengthsKeepFirst<T>(cands: seq<Option<seq<T>>>, acc: Option<seq<T>>, n: nat)
    requires AllOfLength(cands, acc, n)
    ensures FoldShorter(cands, acc) == FirstSome(cands, acc)
    decreases |cands|
  {
    if cands != [] {
      var acc' := if cands[0].Some? then Shorter(acc, cands[0].value) else acc;
      assert acc' == if acc.Some? then acc else cands[0];
      assert AllOfLength(cands[1..], acc', n) by {
        forall i | 0 <= i < |cands[1..]| && cands[1..][i].Some?
          ensures |cands[1..][i].value| == n
        {
          assert cands[1..][i] == cands[i + 1];
        }
      }
      EqualLengthsKeepFirst(cands[1..], acc', n);
      if acc.Some? {
        FirstSomeKeepsAcc(cands[1..], acc);
      }
    }
  }

  lemma {:induction false} FirstSomeKeepsAcc<T>(cands: seq<Option<seq<T>>>, acc: Option<seq<T>>)
    requires acc.Some?
    ensures FirstSome(cands, acc) == acc
  {
  }

  /** The reference definition picks the earliest present candidate. */
  lemma {:induction false} FirstSomeIsEarliest<T>(cands: seq<Option<seq<T>>>)
    ensures FirstSome(cands, None).Some? ==>
      exists i | 0 <= i < |cands| :: cands[i] == FirstSome(cands, None) &&
        forall j | 0 <= j < i :: cands[j].None?
    ensures FirstSome(cands, None).None? ==> forall i | 0 <= i < |cands| :: cands[i].None?
    decreases |cands|
  {
    if cands != [] {
      if cands[0].Some? {
        FirstSomeKeepsAcc(cands[1..], cands[0]);
        assert cands[0] == FirstSome(cands, None);
      } else {
        FirstSomeIsEarliest(cands[1..]);
        var r := FirstSome(cands, None);
        assert r == FirstSome(cands[1..], None);
        if r.Some? {
          var i :| 0 <= i < |cands[1..]| && cands[1..][i] == r &&
            forall j | 0 <= j < i :: cands[1..][j].None?;
          assert cands[i + 1] == r;
          forall j | 0 <= j < i + 1 ensures cands[j].None? {
            if j > 0 { assert cands[j] == cands[1..][j - 1]; }
          }
        } else {
          forall i | 0 <= i < |cands| ensures cands[i].None? {
            if i > 0 { assert cands[i] == cands[1..][i - 1]; }
          }
        }
      }
    }
  }
}

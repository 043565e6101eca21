/**
 * The search as its comments describe it (unbox/src/main.rs:68, 154-180):
 * each level puts its own word in front of the best continuation, and the
 * first call gets the whole `max_words` budget. Given the same budget, its
 * extend step succeeds exactly when the one of module Search does
 * (`ExtendChainAgrees`), but the answer is a real chain, and a shortest one.
 * At the top level it answers with `max_words` exactly when the search as
 * written answers with `max_words + 1` (`SolveChainAgrees`).
 */
module SearchFixed {
  import opened Options
  import opened Fold
  import opened Puzzle
  import opened Dictionary
  import opened Search

  /**
   * `word_strings_recurse` with the current word kept: the answer is a chain
   * from `word` covering `missing` in at most `max(1, remaining)` words.
   */
  function ExtendChain(index: Index, word: string, missing: set<char>, remaining: int): (r: Option<seq<string>>)
    requires Linked(index) && Linkable(index, word)
    ensures r.Some? ==> Covers(index, r.value, word, missing, Max(1, remaining))
    decreases remaining, 0
  {
    var next := missing - Letters(word);
    if |next| == 0 then
      assert [word][1..] == [];
      assert ChainLetters([word]) == Letters(word);
      Some([word])
    else if remaining - 1 <= 0 then None
    else
      var bucket := index[Last(word)];
      match FoldShorter(ChainContinuations(index, bucket, next, remaining - 1), None)
      case None => None
      case Some(rest) =>
        var chain := [word] + rest;
        assert chain[1..] == rest;
        assert forall k | 0 < k < |chain| :: chain[k] == rest[k - 1];
        Some(chain)
  }

  /**
   * The chains found from each word of `bucket`, in bucket order: the
   * continuations of a word, and also the start words of a bucket, which get
   * the whole `max_words` budget.
   */
  function ChainContinuations(index: Index, bucket: seq<string>, missing: set<char>, remaining: int)
    : (r: seq<Option<seq<string>>>)
    requires Linked(index) && forall w | w in bucket :: Linkable(index, w)
    ensures |r| == |bucket|
    ensures forall i | 0 <= i < |r| && r[i].Some? :: Covers(index, r[i].value, bucket[i], missing, Max(1, remaining))
    decreases remaining, 1, |bucket|
  {
    if bucket == [] then []
    else
      var rest := ChainContinuations(index, bucket[1..], missing, remaining);
      assert forall i | 0 < i <= |rest| :: bucket[i] == bucket[1..][i - 1];
      [ExtendChain(index, bucket[0], missing, remaining)] + rest
  }

  lemma {:induction false} ChainContinuationsAt(index: Index, bucket: seq<string>, missing: set<char>, remaining: int, i: int)
    requires Linked(index) && forall w | w in bucket :: Linkable(index, w)
    requires 0 <= i < |bucket|
    ensures ChainContinuations(index, bucket, missing, remaining)[i] == ExtendChain(index, bucket[i], missing, remaining)
    decreases |bucket|
  {
    if i > 0 {
      ChainContinuationsAt(index, bucket[1..], missing, remaining, i - 1);
    }
  }

  /** The shortest chain of each key's bucket, in key order. */
  function KeyChains(index: Index, keys: seq<char>, all: set<char>, maxWords: int)
    : (r: seq<Option<seq<string>>>)
    requires Linked(index) && forall c | c in keys :: c in index
    ensures |r| == |keys|
    ensures forall i | 0 <= i < |r| && r[i].Some? ::
      |r[i].value| > 0 && r[i].value[0] in index[keys[i]] && Covers(index, r[i].value, r[i].value[0], all, Max(1, maxWords))
    decreases |keys|
  {
    if keys == [] then []
    else
      var best := FoldShorter(ChainContinuations(index, index[keys[0]], all, maxWords), None);
      var rest := KeyChains(index, keys[1..], all, maxWords);
      assert forall i | 0 < i <= |rest| :: keys[i] == keys[1..][i - 1];
      [best] + rest
  }

  lemma {:induction false} KeyChainsAt(index: Index, keys: seq<char>, all: set<char>, maxWords: int, i: int)
    requires Linked(index) && forall c | c in keys :: c in index
    requires 0 <= i < |keys|
    ensures KeyChains(index, keys, all, maxWords)[i] == FoldShorter(ChainContinuations(index, index[keys[i]], all, maxWords), None)
    decreases |keys|
  {
    if i > 0 {
      KeyChainsAt(index, keys[1..], all, maxWords, i - 1);
    }
  }

  /**
   * The corrected answer: a chain that starts in some bucket, covers every
   * puzzle letter and has at most `max(1, max_words)` words.
   */
  function SolveChain(index: Index, keys: seq<char>, p: Puzzle, maxWords: int): (r: Option<seq<string>>)
    requires Linked(index) && Enumerates(keys, index)
    ensures r.Some? ==>
      |r.value| > 0 && (exists c | c in keys :: r.value[0] in index[c]) &&
      Covers(index, r.value, r.value[0], AllLetters(p), Max(1, maxWords))
  {
    FoldShorter(KeyChains(index, keys, AllLetters(p), maxWords), None)
  }

  // ---------------------------------------------------------------------
  // The corrected search is exhaustive and returns a shortest chain.

  /**
   * If a chain from `word` covers the missing letters within
   * `max(1, remaining)` words, the corrected search answers with a chain no
   * longer than it.
   */
  lemma {:induction false} ExtendChainShortest(index: Index, chain: seq<string>, missing: set<char>, remaining: int)
    requires Linked(index) && IsChain(index, chain)
    requires missing <= ChainLetters(chain) && |chain| <= Max(1, remaining)
    ensures ExtendChain(index, chain[0], missing, remaining).Some?
    ensures |ExtendChain(index, chain[0], missing, remaining).value| <= |chain|
    decreases |chain|
  {
    var word := chain[0];
    var next := missing - Letters(word);
    if |next| > 0 {
      var rest := chain[1..];
      assert rest != [];
      assert IsChain(index, rest) by {
        forall k | 0 <= k < |rest| - 1 ensures rest[k + 1] in index[Last(rest[k])] {
          assert rest[k] == chain[k + 1] && rest[k + 1] == chain[k + 2];
        }
      }
      ExtendChainShortest(index, rest, next, remaining - 1);
      var bucket := index[Last(word)];
      var i :| 0 <= i < |bucket| && bucket[i] == rest[0];
      ChainContinuationsAt(index, bucket, next, remaining - 1, i);
    }
  }

  /**
   * The corrected answer is a shortest covering chain: no covering chain that
   * starts in a bucket and fits in `max_words` words is shorter.
   */
  lemma SolveChainShortest(index: Index, keys: seq<char>, p: Puzzle, maxWords: int, chain: seq<string>, c: char)
    requires Linked(index) && Enumerates(keys, index)
    requires IsChain(index, chain) && c in index && chain[0] in index[c]
    requires AllLetters(p) <= ChainLetters(chain) && |chain| <= Max(1, maxWords)
    ensures SolveChain(index, keys, p, maxWords).Some?
    ensures |SolveChain(index, keys, p, maxWords).value| <= |chain|
  {
    var all := AllLetters(p);
    ExtendChainShortest(index, chain, all, maxWords);
    var i :| 0 <= i < |keys| && keys[i] == c;
    var j :| 0 <= j < |index[c]| && index[c][j] == chain[0];
    ChainContinuationsAt(index, index[c], all, maxWords, j);
    KeyChainsAt(index, keys, all, maxWords, i);
  }

  /**
   * With the same budget, the extend step as written and the corrected one
   * succeed on the same arguments: they explore the same words and differ
   * only in what they return.
   */
  lemma ExtendChainAgrees(index: Index, word: string, missing: set<char>, remaining: int)
    requires Linked(index) && Linkable(index, word)
    ensures Extend(index, word, missing, remaining).Some? <==> ExtendChain(index, word, missing, remaining).Some?
  {
    if Extend(index, word, missing, remaining).Some? {
      var chain := ExtendWitness(index, word, missing, remaining);
      ExtendChainShortest(index, chain, missing, remaining);
    }
    if ExtendChain(index, word, missing, remaining).Some? {
      ExtendComplete(index, ExtendChain(index, word, missing, remaining).value, missing, remaining);
    }
  }

  /**
   * At the top level the corrected search with `max_words` answers exactly
   * when the search as written answers with `max_words + 1`: the search as
   * written spends one word of its budget on nothing.
   */
  lemma SolveChainAgrees(index: Index, keys: seq<char>, p: Puzzle, maxWords: int)
    requires Linked(index) && Enumerates(keys, index)
    ensures SolveChain(index, keys, p, maxWords).Some? <==> Solve(index, keys, p, maxWords + 1).Some?
  {
    var all := AllLetters(p);
    SolveSomeIff(index, keys, p, maxWords + 1);
    if SolveChain(index, keys, p, maxWords).Some? {
      var v := SolveChain(index, keys, p, maxWords).value;
      var c :| c in keys && v[0] in index[c];
      ExtendComplete(index, v, all, maxWords);
    }
    if Solve(index, keys, p, maxWords + 1).Some? {
      var c, w :| c in index && w in index[c] && Extend(index, w, all, maxWords).Some?;
      ExtendChainAgrees(index, w, all, maxWords);
      var chain := ExtendChain(index, w, all, maxWords).value;
      SolveChainShortest(index, keys, p, maxWords, chain, c);
    }
  }
}

/**
 * The search of the solver as the source writes it (unbox/src/main.rs:68-91,
 * 139-188): `word_strings_recurse` and the top-level fold over the buckets.
 *
 * Two things in it differ from what the surrounding comments describe (see
 * the Findings of README.md): the recursive case returns the child's answer
 * without the current word, so every answer of `word_strings_recurse` is a
 * single word; and the first call is given `max_words - 1`, so the chains
 * explored are shorter than `max_words`.
 */
module Search {
  import opened Options
  import opened Fold
  import opened Puzzle
  import opened Dictionary

  function Max(a: int, b: int): int { if a <= b then b else a }

  function Last(word: string): char
    requires |word| > 0
  {
    word[|word| - 1]
  }

  /** The letters used by a chain of words. */
  function ChainLetters(chain: seq<string>): set<char>
    decreases |chain|
  {
    if chain == [] then {} else Letters(chain[0]) + ChainLetters(chain[1..])
  }

  /** A non-empty chain in which each word comes from the bucket of the last letter of the word before it. */
  ghost predicate IsChain(index: Index, chain: seq<string>) {
    |chain| > 0 &&
    (forall i | 0 <= i < |chain| :: Linkable(index, chain[i])) &&
    (forall i | 0 <= i < |chain| - 1 :: chain[i + 1] in index[Last(chain[i])])
  }

  /** A chain that starts with `word`, covers `missing` and has at most `bound` words. */
  ghost predicate Covers(index: Index, chain: seq<string>, word: string, missing: set<char>, bound: int) {
    IsChain(index, chain) && chain[0] == word && missing <= ChainLetters(chain) && |chain| <= bound
  }

  /**
   * The first lines of `word_strings_recurse`: remove the last letter of
   * `word`, then every other letter, from a copy of the missing set.
   */
  method NextMissing(word: string, missing: set<char>) returns (next: set<char>)
    requires |word| > 0
    ensures next == missing - Letters(word)
  {
    var last := word[|word| - 1];
    next := missing - {last};
    var i := 0;
    while i < |word| - 1
      invariant 0 <= i <= |word| - 1
      invariant next == missing - {last} - Letters(word[..i])
    {
      assert Letters(word[..i + 1]) == Letters(word[..i]) + {word[i]} by {
        assert word[..i + 1] == word[..i] + [word[i]];
      }
      next := next - {word[i]};
      i := i + 1;
    }
    assert Letters(word) == Letters(word[..|word| - 1]) + {last} by {
      assert word == word[..|word| - 1] + [last];
    }
  }

  /**
   * `word_strings_recurse(starts_with, word, missing_chars, remaining_words)`.
   * Success when `word` covers every missing letter (checked before the
   * budget); failure when `remaining_words - 1 <= 0`; otherwise the
   * "shorter" fold over the answers for the words of the bucket of the last
   * letter, returned as they are. Every answer is one word long.
   */
  function Extend(index: Index, word: string, missing: set<char>, remaining: int): (r: Option<seq<string>>)
    requires Linked(index) && Linkable(index, word)
    ensures r.Some? ==> |r.value| == 1
    decreases remaining, 0
  {
    var next := missing - Letters(word);
    if |next| == 0 then Some([word])
    else if remaining - 1 <= 0 then None
    else FoldShorter(Continuations(index, index[Last(word)], next, remaining - 1), None)
  }

  /** The answers of `word_strings_recurse` for each word of `bucket`, in bucket order. */
  function Continuations(index: Index, bucket: seq<string>, missing: set<char>, remaining: int)
    : (r: seq<Option<seq<string>>>)
    requires Linked(index) && forall w | w in bucket :: Linkable(index, w)
    ensures |r| == |bucket|
    ensures forall i | 0 <= i < |r| && r[i].Some? :: |r[i].value| == 1
    decreases remaining, 1, |bucket|
  {
    if bucket == [] then []
    else [Extend(index, bucket[0], missing, remaining)] + Continuations(index, bucket[1..], missing, remaining)
  }

  lemma {:induction false} ContinuationsAt(index: Index, bucket: seq<string>, missing: set<char>, remaining: int, i: int)
    requires Linked(index) && forall w | w in bucket :: Linkable(index, w)
    requires 0 <= i < |bucket|
    ensures Continuations(index, bucket, missing, remaining)[i] == Extend(index, bucket[i], missing, remaining)
    decreases |bucket|
  {
    if i > 0 {
      ContinuationsAt(index, bucket[1..], missing, remaining, i - 1);
    }
  }

  /** The candidates of one bucket at the top level: each start word followed by its answer. */
  function StartCandidates(index: Index, bucket: seq<string>, all: set<char>, maxWords: int)
    : (r: seq<Option<seq<string>>>)
    requires Linked(index) && forall w | w in bucket :: Linkable(index, w)
    ensures |r| == |bucket|
    ensures forall i | 0 <= i < |r| && r[i].Some? ::
      |r[i].value| == 2 && r[i].value[0] == bucket[i] &&
      Extend(index, bucket[i], all, maxWords - 1) == Some([r[i].value[1]])
    decreases |bucket|
  {
    if bucket == [] then []
    else
      var cand := match Extend(index, bucket[0], all, maxWords - 1)
        case None => None
        case Some(ws) => assert ws == [ws[0]]; Some([bucket[0]] + ws);
      var rest := StartCandidates(index, bucket[1..], all, maxWords);
      assert forall i | 0 < i <= |rest| :: ([cand] + rest)[i] == rest[i - 1] && bucket[i] == bucket[1..][i - 1];
      [cand] + rest
  }

  lemma {:induction false} StartCandidatesAt(index: Index, bucket: seq<string>, all: set<char>, maxWords: int, i: int)
    requires Linked(index) && forall w | w in bucket :: Linkable(index, w)
    requires 0 <= i < |bucket|
    ensures StartCandidates(index, bucket, all, maxWords)[i].Some? <==>
      Extend(index, bucket[i], all, maxWords - 1).Some?
    decreases |bucket|
  {
    if i > 0 {
      StartCandidatesAt(index, bucket[1..], all, maxWords, i - 1);
    }
  }

  /** The best candidate of each key's bucket, in key order. */
  function KeyCandidates(index: Index, keys: seq<char>, all: set<char>, maxWords: int)
    : (r: seq<Option<seq<string>>>)
    requires Linked(index) && forall c | c in keys :: c in index
    ensures |r| == |keys|
    ensures forall i | 0 <= i < |r| && r[i].Some? ::
      |r[i].value| == 2 && r[i].value[0] in index[keys[i]] &&
      Extend(index, r[i].value[0], all, maxWords - 1) == Some([r[i].value[1]])
    decreases |keys|
  {
    if keys == [] then []
    else
      [FoldShorter(StartCandidates(index, index[keys[0]], all, maxWords), None)] +
      KeyCandidates(index, keys[1..], all, maxWords)
  }

  lemma {:induction false} KeyCandidatesAt(index: Index, keys: seq<char>, all: set<char>, maxWords: int, i: int)
    requires Linked(index) && forall c | c in keys :: c in index
    requires 0 <= i < |keys|
    ensures KeyCandidates(index, keys, all, maxWords)[i] ==
      FoldShorter(StartCandidates(index, index[keys[i]], all, maxWords), None)
    decreases |keys|
  {
    if i > 0 {
      KeyCandidatesAt(index, keys[1..], all, maxWords, i - 1);
    }
  }

  /** `keys` lists every key of the index once: the order of `HashMap::keys`, which is unspecified. */
  ghost predicate Enumerates(keys: seq<char>, index: Index) {
    (forall c :: c in keys <==> c in index) &&
    forall i, j | 0 <= i < j < |keys| :: keys[i] != keys[j]
  }

  /**
   * The answer of `main`: every start word of every bucket, keys in the
   * order given, searched with `max_words - 1` and the full puzzle letter
   * set missing. The answer is always two words: a start word and the one
   * word its search returned.
   */
  function Solve(index: Index, keys: seq<char>, p: Puzzle, maxWords: int): (r: Option<seq<string>>)
    requires Linked(index) && Enumerates(keys, index)
    ensures r.Some? ==>
      |r.value| == 2 && (exists c | c in keys :: r.value[0] in index[c]) &&
      Extend(index, r.value[0], AllLetters(p), maxWords - 1) == Some([r.value[1]])
  {
    FoldShorter(KeyCandidates(index, keys, AllLetters(p), maxWords), None)
  }

  // ---------------------------------------------------------------------
  // What an answer of `word_strings_recurse` means.

  /** A word that covers every missing letter succeeds on its own, whatever the budget. */
  lemma CoveringWordSucceeds(index: Index, word: string, missing: set<char>, remaining: int)
    requires Linked(index) && Linkable(index, word)
    requires missing <= Letters(word)
    ensures Extend(index, word, missing, remaining) == Some([word])
  {
    assert missing - Letters(word) == {};
  }

  /**
   * In the recursive case the "shorter" fold keeps the first success: all
   * answers have one word, so none is ever strictly shorter.
   */
  lemma ExtendKeepsFirstSuccess(index: Index, word: string, missing: set<char>, remaining: int)
    requires Linked(index) && Linkable(index, word)
    requires |missing - Letters(word)| > 0 && remaining - 1 > 0
    ensures Extend(index, word, missing, remaining) ==
      FirstSome(Continuations(index, index[Last(word)], missing - Letters(word), remaining - 1), None)
  {
    var cands := Continuations(index, index[Last(word)], missing - Letters(word), remaining - 1);
    EqualLengthsKeepFirst(cands, None, 1);
  }

  /**
   * An answer `[w]` stands for a chain from `word` to `w` that covers the
   * missing letters and has at most `max(1, remaining)` words.
   */
  lemma {:induction false} ExtendWitness(index: Index, word: string, missing: set<char>, remaining: int)
    returns (chain: seq<string>)
    requires Linked(index) && Linkable(index, word)
    requires Extend(index, word, missing, remaining).Some?
    ensures Covers(index, chain, word, missing, Max(1, remaining))
    ensures chain[|chain| - 1] == Extend(index, word, missing, remaining).value[0]
    decreases remaining
  {
    var next := missing - Letters(word);
    if |next| == 0 {
      chain := [word];
      assert Extend(index, word, missing, remaining) == Some([word]);
      assert ChainLetters(chain) == Letters(word) by {
        assert chain[1..] == [];
      }
    } else {
      var bucket := index[Last(word)];
      var i := ExtendStep(index, word, missing, remaining);
      var rest := ExtendWitness(index, bucket[i], next, remaining - 1);
      chain := [word] + rest;
      ConsChain(index, word, rest);
    }
  }

  /** An answer that needs more words than `word` is the answer of one word of its bucket. */
  lemma ExtendStep(index: Index, word: string, missing: set<char>, remaining: int) returns (i: nat)
    requires Linked(index) && Linkable(index, word)
    requires Extend(index, word, missing, remaining).Some? && |missing - Letters(word)| > 0
    ensures remaining > 1 && i < |index[Last(word)]|
    ensures Extend(index, word, missing, remaining) ==
      Extend(index, index[Last(word)][i], missing - Letters(word), remaining - 1)
  {
    var bucket := index[Last(word)];
    var next := missing - Letters(word);
    var cands := Continuations(index, bucket, next, remaining - 1);
    var r := Extend(index, word, missing, remaining);
    assert r == FoldShorter(cands, None);
    i :| 0 <= i < |cands| && cands[i] == r;
    ContinuationsAt(index, bucket, next, remaining - 1, i);
  }

  /** Putting a linkable word in front of a chain that starts in its bucket gives a longer chain. */
  lemma ConsChain(index: Index, word: string, rest: seq<string>)
    requires Linked(index) && Linkable(index, word) && IsChain(index, rest)
    requires rest[0] in index[Last(word)]
    ensures IsChain(index, [word] + rest)
    ensures ChainLetters([word] + rest) == Letters(word) + ChainLetters(rest)
  {
    var chain := [word] + rest;
    assert chain[1..] == rest;
    forall k | 0 <= k < |chain| - 1 ensures chain[k + 1] in index[Last(chain[k])] {
      if k > 0 { assert chain[k] == rest[k - 1] && chain[k + 1] == rest[k]; }
    }
  }

  /**
   * Conversely, if a chain from `word` covers the missing letters within
   * `max(1, remaining)` words, `word_strings_recurse` finds an answer.
   */
  lemma {:induction false} ExtendComplete(index: Index, chain: seq<string>, missing: set<char>, remaining: int)
    requires Linked(index) && IsChain(index, chain)
    requires missing <= ChainLetters(chain) && |chain| <= Max(1, remaining)
    ensures Extend(index, chain[0], missing, remaining).Some?
    decreases |chain|
  {
    var word := chain[0];
    var next := missing - Letters(word);
    if |next| > 0 {
      var rest := chain[1..];
      assert rest != [];
      assert IsChain(index, rest) by {
        forall k | 0 <= k < |rest| - 1 ensures rest[k + 1] in index[Last(rest[k])] {
          assert rest[k] == chain[k + 1] && rest[k + 1] == chain[k + 2];
        }
      }
      ExtendComplete(index, rest, next, remaining - 1);
      var bucket := index[Last(word)];
      var i :| 0 <= i < |bucket| && bucket[i] == rest[0];
      ContinuationsAt(index, bucket, next, remaining - 1, i);
    }
  }

  // ---------------------------------------------------------------------
  // What the top-level answer means.

  /** The answer is the first successful start word, in key order and bucket order. */
  lemma SolveKeepsFirstSuccess(index: Index, keys: seq<char>, p: Puzzle, maxWords: int)
    requires Linked(index) && Enumerates(keys, index)
    ensures Solve(index, keys, p, maxWords) == FirstSome(KeyCandidates(index, keys, AllLetters(p), maxWords), None)
    ensures forall i | 0 <= i < |keys| ::
      KeyCandidates(index, keys, AllLetters(p), maxWords)[i] ==
      FirstSome(StartCandidates(index, index[keys[i]], AllLetters(p), maxWords), None)
  {
    var all := AllLetters(p);
    EqualLengthsKeepFirst(KeyCandidates(index, keys, all, maxWords), None, 2);
    forall i | 0 <= i < |keys|
      ensures KeyCandidates(index, keys, all, maxWords)[i] ==
        FirstSome(StartCandidates(index, index[keys[i]], all, maxWords), None)
    {
      KeyCandidatesAt(index, keys, all, maxWords, i);
      EqualLengthsKeepFirst(StartCandidates(index, index[keys[i]], all, maxWords), None, 2);
    }
  }

  /** A word covering the whole puzzle is printed twice: `[w, w]`. */
  lemma SingleWordAnswerRepeats(index: Index, keys: seq<char>, p: Puzzle, maxWords: int)
    requires Linked(index) && Enumerates(keys, index)
    requires Solve(index, keys, p, maxWords).Some?
    requires AllLetters(p) <= Letters(Solve(index, keys, p, maxWords).value[0])
    ensures Solve(index, keys, p, maxWords).value[1] == Solve(index, keys, p, maxWords).value[0]
  {
    var v := Solve(index, keys, p, maxWords).value;
    var c :| c in keys && v[0] in index[c];
    CoveringWordSucceeds(index, v[0], AllLetters(p), maxWords - 1);
  }

  /**
   * There is an answer exactly when some start word's search succeeds; which
   * key order `HashMap` uses does not matter for that.
   */
  lemma {:induction false} SolveSomeIff(index: Index, keys: seq<char>, p: Puzzle, maxWords: int)
    requires Linked(index) && Enumerates(keys, index)
    ensures Solve(index, keys, p, maxWords).Some? <==>
      exists c, w | c in index && w in index[c] :: Extend(index, w, AllLetters(p), maxWords - 1).Some?
  {
    var all := AllLetters(p);
    var kc := KeyCandidates(index, keys, all, maxWords);
    if Solve(index, keys, p, maxWords).Some? {
      var v := Solve(index, keys, p, maxWords).value;
      var c :| c in keys && v[0] in index[c];
    }
    if exists c, w | c in index && w in index[c] :: Extend(index, w, all, maxWords - 1).Some? {
      var c, w :| c in index && w in index[c] && Extend(index, w, all, maxWords - 1).Some?;
      var i :| 0 <= i < |keys| && keys[i] == c;
      var j :| 0 <= j < |index[c]| && index[c][j] == w;
      StartCandidatesAt(index, index[c], all, maxWords, j);
      KeyCandidatesAt(index, keys, all, maxWords, i);
      assert kc[i].Some?;
    }
  }

  /** Two enumerations of the same index find an answer alike (the answers may differ). */
  lemma KeyOrderDoesNotDecideExistence(index: Index, keys1: seq<char>, keys2: seq<char>, p: Puzzle, maxWords: int)
    requires Linked(index) && Enumerates(keys1, index) && Enumerates(keys2, index)
    ensures Solve(index, keys1, p, maxWords).Some? == Solve(index, keys2, p, maxWords).Some?
  {
    SolveSomeIff(index, keys1, p, maxWords);
    SolveSomeIff(index, keys2, p, maxWords);
  }

  /**
   * An answer `[s, e]` stands for a chain from the start word `s` to `e`
   * covering every puzzle letter in at most `max(1, max_words - 1)` words.
   */
  lemma SolveWitness(index: Index, keys: seq<char>, p: Puzzle, maxWords: int) returns (chain: seq<string>)
    requires Linked(index) && Enumerates(keys, index)
    requires Solve(index, keys, p, maxWords).Some?
    ensures Covers(index, chain, Solve(index, keys, p, maxWords).value[0], AllLetters(p), Max(1, maxWords - 1))
    ensures chain[|chain| - 1] == Solve(index, keys, p, maxWords).value[1]
  {
    var v := Solve(index, keys, p, maxWords).value;
    var c :| c in keys && v[0] in index[c];
    chain := ExtendWitness(index, v[0], AllLetters(p), maxWords - 1);
  }

  /**
   * Conversely, a covering chain that starts in some bucket and has at most
   * `max(1, max_words - 1)` words makes the search answer.
   */
  lemma SolveComplete(index: Index, keys: seq<char>, p: Puzzle, maxWords: int, chain: seq<string>, c: char)
    requires Linked(index) && Enumerates(keys, index)
    requires IsChain(index, chain) && c in index && chain[0] in index[c]
    requires AllLetters(p) <= ChainLetters(chain) && |chain| <= Max(1, maxWords - 1)
    ensures Solve(index, keys, p, maxWords).Some?
  {
    ExtendComplete(index, chain, AllLetters(p), maxWords - 1);
    SolveSomeIff(index, keys, p, maxWords);
  }
}

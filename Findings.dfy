/**
 * Two inputs the program accepts on which the search as written and the
 * corrected search part ways. The sides abc, def, ghi and jkl pass the side
 * check, every dictionary word passes `validate` and has at least three
 * letters, and the index is any one that `BuildIndex` returns for the
 * dictionary, with the keys in any order. The helper lemmas evaluate the
 * searches one call at a time.
 */
module Findings {
  import opened Options
  import opened Fold
  import opened Puzzle
  import opened Dictionary
  import opened Search
  import opened SearchFixed

  const Sides: seq<string> := ["abc", "def", "ghi", "jkl"]
  const Board: Puzzle := MakePuzzle(Sides)

  // ---------------------------------------------------------------------
  // The board and the words.

  lemma BoardSides()
    ensures Board == [{'a', 'b', 'c'}, {'d', 'e', 'f'}, {'g', 'h', 'i'}, {'j', 'k', 'l'}]
  {
    ThreeLetters("abc");
    ThreeLetters("def");
    ThreeLetters("ghi");
    ThreeLetters("jkl");
  }

  /** The sides are legal arguments: three distinct letters each. */
  lemma SidesPass()
    ensures forall i | 0 <= i < 4 :: SideCheck(Sides[i]).Pass?
  {
    assert Sides[0] == ['a', 'b', 'c'] && Sides[1] == ['d', 'e', 'f'];
    assert Sides[2] == ['g', 'h', 'i'] && Sides[3] == ['j', 'k', 'l'];
    assert SideCheck(Sides[0]).Pass? && SideCheck(Sides[1]).Pass?;
    assert SideCheck(Sides[2]).Pass? && SideCheck(Sides[3]).Pass?;
  }

  /** The board's letters are lower-case, as `BuildIndex` requires. */
  lemma BoardLowercase()
    ensures Lowercase(Board)
  {
    BoardSides();
    forall c | c in AllLetters(Board) ensures 'a' <= c <= 'z' {
      if c in Board[0] {
        assert 'a' <= c <= 'c';
      } else if c in Board[1] {
        assert 'd' <= c <= 'f';
      } else if c in Board[2] {
        assert 'g' <= c <= 'i';
      } else {
        assert 'j' <= c <= 'l';
      }
    }
  }

  lemma WordLetters()
    ensures Letters("adgj") == {'a', 'd', 'g', 'j'}
    ensures Letters("jbehk") == {'j', 'b', 'e', 'h', 'k'}
    ensures Letters("kcfil") == {'k', 'c', 'f', 'i', 'l'}
    ensures Letters("adgjbehk") == {'a', 'd', 'g', 'j', 'b', 'e', 'h', 'k'}
  {
    assert "adgj" == ['a', 'd', 'g', 'j'];
    assert "jbehk" == ['j', 'b', 'e', 'h', 'k'];
    assert "kcfil" == ['k', 'c', 'f', 'i', 'l'];
    assert "adgjbehk" == ['a', 'd', 'g', 'j', 'b', 'e', 'h', 'k'];
  }

  lemma WordEnds()
    ensures Last("adgj") == 'j' && Last("jbehk") == 'k' && Last("kcfil") == 'l' && Last("adgjbehk") == 'k'
  {
  }

  /** Letters of the board that a word lacks: they keep the search going. */
  lemma WordGaps()
    ensures 'a' in AllLetters(Board) && 'b' in AllLetters(Board) && 'c' in AllLetters(Board)
    ensures 'b' !in Letters("adgj") && 'c' !in Letters("adgj") && 'c' !in Letters("jbehk")
    ensures 'a' !in Letters("jbehk") && 'a' !in Letters("kcfil") && 'c' !in Letters("adgjbehk")
  {
    BoardSides();
    assert 'a' in Board[0] && 'b' in Board[0] && 'c' in Board[0];
  }

  /** The words adgj, jbehk, kcfil between them cover the board, and so do adgjbehk, kcfil. */
  lemma BoardCover()
    ensures AllLetters(Board) <= Letters("adgj") + Letters("jbehk") + Letters("kcfil")
    ensures AllLetters(Board) <= Letters("adgjbehk") + Letters("kcfil")
  {
    BoardSides();
    WordLetters();
    forall c | c in AllLetters(Board)
      ensures c in Letters("adgj") + Letters("jbehk") + Letters("kcfil")
      ensures c in Letters("adgjbehk") + Letters("kcfil")
    {
      if c in Board[0] {
        assert c == 'a' || c == 'b' || c == 'c';
      } else if c in Board[1] {
        assert c == 'd' || c == 'e' || c == 'f';
      } else if c in Board[2] {
        assert c == 'g' || c == 'h' || c == 'i';
      } else {
        assert c == 'j' || c == 'k' || c == 'l';
      }
    }
  }

  /** Where `validate` puts the letters of the four words: one side after the other, round the box. */
  lemma SideSteps()
    ensures FirstSide(Board, 'a', 4) == 0 && FirstSide(Board, 'j', 4) == 3 && FirstSide(Board, 'k', 4) == 3
    ensures FirstSide(Board, 'b', 3) == 0 && FirstSide(Board, 'c', 3) == 0
    ensures FirstSide(Board, 'd', 0) == 1 && FirstSide(Board, 'e', 0) == 1 && FirstSide(Board, 'f', 0) == 1
    ensures FirstSide(Board, 'g', 1) == 2 && FirstSide(Board, 'h', 1) == 2 && FirstSide(Board, 'i', 1) == 2
    ensures FirstSide(Board, 'j', 2) == 3 && FirstSide(Board, 'k', 2) == 3 && FirstSide(Board, 'l', 2) == 3
  {
    BoardSides();
  }

  /** The tail behk, after a letter of side 3. */
  lemma TailBehk()
    ensures GreedyValid(Board, "behk", 3)
  {
    SideSteps();
    assert GreedyValid(Board, "k", 2);
    assert GreedyValid(Board, "hk", 1);
    assert GreedyValid(Board, "ehk", 0);
  }

  lemma KeptAdgj()
    ensures Keep(Board, "adgj")
  {
    SideSteps();
    assert GreedyValid(Board, "j", 2);
    assert GreedyValid(Board, "gj", 1);
    assert GreedyValid(Board, "dgj", 0);
    assert "adgj"[1..] == "dgj";
  }

  lemma KeptJbehk()
    ensures Keep(Board, "jbehk")
  {
    SideSteps();
    TailBehk();
    assert "jbehk"[1..] == "behk";
  }

  lemma KeptKcfil()
    ensures Keep(Board, "kcfil")
  {
    SideSteps();
    assert GreedyValid(Board, "l", 2);
    assert GreedyValid(Board, "il", 1);
    assert GreedyValid(Board, "fil", 0);
    assert GreedyValid(Board, "cfil", 3);
    assert "kcfil"[1..] == "cfil";
  }

  lemma KeptAdgjbehk()
    ensures Keep(Board, "adgjbehk")
  {
    SideSteps();
    TailBehk();
    assert GreedyValid(Board, "jbehk", 2);
    assert GreedyValid(Board, "gjbehk", 1);
    assert GreedyValid(Board, "dgjbehk", 0);
    assert "adgjbehk"[1..] == "dgjbehk";
  }

  lemma WordsAreKept()
    ensures Keep(Board, "adgj") && Keep(Board, "jbehk") && Keep(Board, "kcfil") && Keep(Board, "adgjbehk")
  {
    KeptAdgj();
    KeptJbehk();
    KeptKcfil();
    KeptAdgjbehk();
  }

  /** The index `BuildIndex` returns for `lines` on the board: its postcondition. */
  ghost predicate BuiltFrom(index: Index, lines: seq<string>) {
    HasAlphabetKeys(index) && forall c | c in index :: index[c] == Bucket(lines, Board, c)
  }

  /**
   * `keys` enumerates every index whose keys are 'a'..'z', as the keys of
   * any index that `BuildIndex` returns are: the key orders `HashMap::keys`
   * may yield.
   */
  ghost predicate Alphabet(keys: seq<char>) {
    forall index: Index | HasAlphabetKeys(index) :: Enumerates(keys, index)
  }

  /** Alphabetical order is one of them. */
  lemma AlphabeticalOrder()
    ensures Alphabet("abcdefghijklmnopqrstuvwxyz")
  {
    var keys := "abcdefghijklmnopqrstuvwxyz";
    assert forall i | 0 <= i < |keys| :: keys[i] as int == 'a' as int + i;
    forall c | 'a' <= c <= 'z' ensures c in keys {
      assert keys[c as int - 'a' as int] == c;
    }
  }

  // ---------------------------------------------------------------------
  // The recursive case drops its word: dictionary adgj, jbehk, kcfil.

  const DroppedLines: seq<string> := ["adgj", "jbehk", "kcfil"]

  lemma DroppedBucket(c: char)
    ensures Bucket(DroppedLines, Board, c) ==
      (if c == 'a' then ["adgj"] else []) + (if c == 'j' then ["jbehk"] else []) + (if c == 'k' then ["kcfil"] else [])
  {
    WordsAreKept();
    var ls := DroppedLines;
    var l2 := ls[..2];
    var l1 := l2[..1];
    assert l1[..0] == [] && l1[0] == "adgj" && l2[1] == "jbehk" && ls[2] == "kcfil";
    assert Bucket(l1, Board, c) == (if c == 'a' then ["adgj"] else []);
    assert Bucket(l2, Board, c) == Bucket(l1, Board, c) + (if c == 'j' then ["jbehk"] else []);
  }

  lemma DroppedBuckets()
    ensures Bucket(DroppedLines, Board, 'a') == ["adgj"]
    ensures Bucket(DroppedLines, Board, 'j') == ["jbehk"]
    ensures Bucket(DroppedLines, Board, 'k') == ["kcfil"]
    ensures Bucket(DroppedLines, Board, 'l') == []
  {
    DroppedBucket('a');
    DroppedBucket('j');
    DroppedBucket('k');
    DroppedBucket('l');
  }

  /** The index this dictionary gives, as the search walks it. */
  ghost predicate DroppedShape(index: Index) {
    HasAlphabetKeys(index) && Linked(index) &&
    index['a'] == ["adgj"] && index['j'] == ["jbehk"] && index['k'] == ["kcfil"] && index['l'] == [] &&
    forall c, w | c in index && w in index[c] :: w == "adgj" || w == "jbehk" || w == "kcfil"
  }

  lemma DroppedIndex(index: Index)
    requires BuiltFrom(index, DroppedLines)
    ensures DroppedShape(index)
  {
    BoardLowercase();
    BuiltIndexIsLinked(DroppedLines, Board, index);
    DroppedBuckets();
    forall c, w | c in index && w in index[c] ensures w == "adgj" || w == "jbehk" || w == "kcfil" {
      BucketMembers(DroppedLines, Board, c, w);
    }
  }

  /**
   * A word whose last letter's bucket holds a single word hands the search
   * on to that word, with its own letters removed and one word less of budget.
   */
  lemma SingleFollower(index: Index, word: string, follower: string, missing: set<char>, remaining: int)
    requires Linked(index) && Linkable(index, word) && index[Last(word)] == [follower]
    requires missing - Letters(word) != {} && remaining >= 2
    ensures Extend(index, word, missing, remaining) ==
      Extend(index, follower, missing - Letters(word), remaining - 1)
  {
    var next := missing - Letters(word);
    assert Continuations(index, [follower], next, remaining - 1) ==
      [Extend(index, follower, next, remaining - 1)];
  }

  /** A word whose last letter's bucket is empty succeeds only by covering everything itself. */
  lemma NoFollower(index: Index, word: string, missing: set<char>, remaining: int)
    requires Linked(index) && Linkable(index, word) && index[Last(word)] == []
    requires missing - Letters(word) != {}
    ensures Extend(index, word, missing, remaining) == None
  {
    assert Continuations(index, [], missing - Letters(word), remaining - 1) == [];
  }

  /** From each start word, with `max_words` 4: only adgj succeeds, and it answers kcfil. */
  lemma DroppedStarts(index: Index)
    requires DroppedShape(index)
    ensures Extend(index, "adgj", AllLetters(Board), 3) == Some(["kcfil"])
    ensures Extend(index, "jbehk", AllLetters(Board), 3) == None
    ensures Extend(index, "kcfil", AllLetters(Board), 3) == None
  {
    WordEnds();
    WordGaps();
    BoardCover();
    var all := AllLetters(Board);
    var afterA := all - Letters("adgj");
    assert 'b' in afterA && 'c' in afterA - Letters("jbehk");
    SingleFollower(index, "adgj", "jbehk", all, 3);
    SingleFollower(index, "jbehk", "kcfil", afterA, 2);
    CoveringWordSucceeds(index, "kcfil", afterA - Letters("jbehk"), 1);
    assert 'a' in all - Letters("jbehk") && 'a' in all - Letters("jbehk") - Letters("kcfil");
    SingleFollower(index, "jbehk", "kcfil", all, 3);
    NoFollower(index, "kcfil", all - Letters("jbehk"), 2);
    assert 'a' in all - Letters("kcfil");
    NoFollower(index, "kcfil", all, 3);
  }

  /** adgj, jbehk, kcfil is a chain covering the board; adgj, kcfil is not a chain. */
  lemma DroppedChain(index: Index)
    requires DroppedShape(index)
    ensures IsChain(index, ["adgj", "jbehk", "kcfil"])
    ensures AllLetters(Board) <= ChainLetters(["adgj", "jbehk", "kcfil"])
    ensures !IsChain(index, ["adgj", "kcfil"])
  {
    WordEnds();
    BoardCover();
    var chain := ["adgj", "jbehk", "kcfil"];
    assert chain[1..] == ["jbehk", "kcfil"] && chain[1..][1..] == ["kcfil"] && chain[1..][1..][1..] == [];
    assert ChainLetters(chain) == Letters("adgj") + Letters("jbehk") + Letters("kcfil");
    assert "kcfil"[0] != "jbehk"[0];
    assert ["adgj", "kcfil"][1] !in index[Last(["adgj", "kcfil"][0])];
  }

  /** An answer starts with the one word that can succeed. */
  lemma AnswerStart(index: Index, keys: seq<char>, p: Puzzle, maxWords: int, first: string)
    requires Linked(index) && Enumerates(keys, index) && Solve(index, keys, p, maxWords).Some?
    requires forall d, w | d in index && w in index[d] ::
      w == first || Extend(index, w, AllLetters(p), maxWords - 1).None?
    ensures Solve(index, keys, p, maxWords).value[0] == first
  {
    var v := Solve(index, keys, p, maxWords).value;
    var d :| d in keys && v[0] in index[d];
  }

  /** An answer ends with the word its start word found. */
  lemma AnswerEnd(index: Index, keys: seq<char>, p: Puzzle, maxWords: int, first: string, second: string)
    requires Linked(index) && Enumerates(keys, index) && Solve(index, keys, p, maxWords).Some?
    requires Solve(index, keys, p, maxWords).value[0] == first
    requires Extend(index, first, AllLetters(p), maxWords - 1) == Some([second])
    ensures |Solve(index, keys, p, maxWords).value| == 2
    ensures Solve(index, keys, p, maxWords).value[1] == second
  {
    var v := Solve(index, keys, p, maxWords).value;
    assert [v[1]][0] == v[1];
  }

  lemma Pair(v: seq<string>, first: string, second: string)
    requires |v| == 2 && v[0] == first && v[1] == second
    ensures v == [first, second]
  {
    assert v == [v[0], v[1]];
  }

  /** When a single start word can succeed, the answer is that word and the one it found. */
  lemma OnlyStart(index: Index, keys: seq<char>, p: Puzzle, maxWords: int, first: string, second: string, c: char)
    requires Linked(index) && Enumerates(keys, index)
    requires c in index && first in index[c]
    requires Extend(index, first, AllLetters(p), maxWords - 1) == Some([second])
    requires forall d, w | d in index && w in index[d] ::
      w == first || Extend(index, w, AllLetters(p), maxWords - 1).None?
    ensures Solve(index, keys, p, maxWords) == Some([first, second])
  {
    assert Solve(index, keys, p, maxWords).Some? by {
      SolveSomeIff(index, keys, p, maxWords);
    }
    AnswerStart(index, keys, p, maxWords, first);
    AnswerEnd(index, keys, p, maxWords, first, second);
    Pair(Solve(index, keys, p, maxWords).value, first, second);
  }

  /** When no start word can succeed, there is no answer. */
  lemma NoStart(index: Index, keys: seq<char>, p: Puzzle, maxWords: int)
    requires Linked(index) && Enumerates(keys, index)
    requires forall d, w | d in index && w in index[d] :: Extend(index, w, AllLetters(p), maxWords - 1).None?
    ensures Solve(index, keys, p, maxWords) == None
  {
    SolveSomeIff(index, keys, p, maxWords);
  }

  lemma DroppedFailures(index: Index)
    requires DroppedShape(index)
    ensures forall d, w | d in index && w in index[d] :: w == "adgj" || Extend(index, w, AllLetters(Board), 3).None?
  {
    DroppedStarts(index);
  }

  lemma DroppedSolve(index: Index, keys: seq<char>)
    requires DroppedShape(index) && Enumerates(keys, index)
    ensures Solve(index, keys, Board, 4) == Some(["adgj", "kcfil"])
  {
    DroppedStarts(index);
    DroppedFailures(index);
    OnlyStart(index, keys, Board, 4, "adgj", "kcfil", 'a');
  }

  lemma DroppedFixed(index: Index, keys: seq<char>)
    requires DroppedShape(index) && Enumerates(keys, index)
    ensures Linked(index) && SolveChain(index, keys, Board, 4).Some?
    ensures IsChain(index, SolveChain(index, keys, Board, 4).value)
    ensures |SolveChain(index, keys, Board, 4).value| <= 3
  {
    DroppedChain(index);
    SolveChainShortest(index, keys, Board, 4, ["adgj", "jbehk", "kcfil"], 'a');
  }

  /** The sides pass `side_validator` and all three words are kept. */
  lemma DroppedLegal()
    ensures forall i | 0 <= i < 4 :: SideCheck(Sides[i]).Pass?
    ensures forall w | w in DroppedLines :: Keep(Board, w)
  {
    SidesPass();
    WordsAreKept();
  }

  /**
   * The recursive case drops its own word: with `max_words` 4 the search
   * prints ["adgj", "kcfil"], which is not a chain ("kcfil" does not follow
   * "adgj"), while the corrected search returns a chain.
   */
  lemma DroppedWordExample(index: Index, keys: seq<char>)
    requires BuiltFrom(index, DroppedLines) && Enumerates(keys, index)
    ensures forall i | 0 <= i < 4 :: SideCheck(Sides[i]).Pass?
    ensures forall w | w in DroppedLines :: Keep(Board, w)
    ensures Linked(index) && Solve(index, keys, Board, 4) == Some(["adgj", "kcfil"])
    ensures !IsChain(index, ["adgj", "kcfil"])
    ensures SolveChain(index, keys, Board, 4).Some?
    ensures IsChain(index, SolveChain(index, keys, Board, 4).value)
  {
    DroppedLegal();
    DroppedIndex(index);
    DroppedChain(index);
    DroppedSolve(index, keys);
    DroppedFixed(index, keys);
  }

  /** `main` on this input: build the index, then search with `max_words` 4, keys in any order. */
  method DroppedWordRun(keys: seq<char>) returns (answer: Option<seq<string>>, fixed: Option<seq<string>>)
    requires Alphabet(keys)
    ensures answer == Some(["adgj", "kcfil"])
    ensures fixed.Some?
  {
    BoardLowercase();
    var index := BuildIndex(DroppedLines, Board);
    DroppedWordExample(index, keys);
    answer := Solve(index, keys, Board, 4);
    fixed := SolveChain(index, keys, Board, 4);
  }

  // ---------------------------------------------------------------------
  // The budget is one word short: dictionary adgjbehk, kcfil, `max_words` 2.

  const BudgetLines: seq<string> := ["adgjbehk", "kcfil"]

  lemma BudgetBucket(c: char)
    ensures Bucket(BudgetLines, Board, c) ==
      (if c == 'a' then ["adgjbehk"] else []) + (if c == 'k' then ["kcfil"] else [])
  {
    WordsAreKept();
    var ls := BudgetLines;
    var l1 := ls[..1];
    assert l1[..0] == [] && l1[0] == "adgjbehk" && ls[1] == "kcfil";
    assert Bucket(l1, Board, c) == (if c == 'a' then ["adgjbehk"] else []);
  }

  /** The index this dictionary gives, as the search walks it. */
  ghost predicate BudgetShape(index: Index) {
    HasAlphabetKeys(index) && Linked(index) &&
    index['a'] == ["adgjbehk"] && index['k'] == ["kcfil"] &&
    forall c, w | c in index && w in index[c] :: w == "adgjbehk" || w == "kcfil"
  }

  lemma BudgetIndex(index: Index)
    requires BuiltFrom(index, BudgetLines)
    ensures BudgetShape(index)
  {
    BoardLowercase();
    BuiltIndexIsLinked(BudgetLines, Board, index);
    BudgetBucket('a');
    BudgetBucket('k');
    forall c, w | c in index && w in index[c] ensures w == "adgjbehk" || w == "kcfil" {
      BucketMembers(BudgetLines, Board, c, w);
    }
  }

  /** With a budget of one word, no start word covers the board on its own. */
  lemma BudgetFailures(index: Index)
    requires BudgetShape(index)
    ensures forall d, w | d in index && w in index[d] :: Extend(index, w, AllLetters(Board), 1).None?
  {
    WordGaps();
    var all := AllLetters(Board);
    assert 'c' in all - Letters("adgjbehk") && 'a' in all - Letters("kcfil");
  }

  lemma BudgetSolve(index: Index, keys: seq<char>)
    requires BudgetShape(index) && Enumerates(keys, index)
    ensures Solve(index, keys, Board, 2) == None
  {
    BudgetFailures(index);
    NoStart(index, keys, Board, 2);
  }

  lemma BudgetChain(index: Index)
    requires BudgetShape(index)
    ensures Linked(index)
    ensures IsChain(index, ["adgjbehk", "kcfil"]) && AllLetters(Board) <= ChainLetters(["adgjbehk", "kcfil"])
  {
    BoardCover();
    WordEnds();
    var chain := ["adgjbehk", "kcfil"];
    assert chain[1..] == ["kcfil"] && chain[1..][1..] == [];
    assert ChainLetters(chain) == Letters("adgjbehk") + Letters("kcfil");
  }

  lemma BudgetFixed(index: Index, keys: seq<char>)
    requires BudgetShape(index) && Enumerates(keys, index)
    ensures Linked(index)
    ensures SolveChain(index, keys, Board, 2).Some? && |SolveChain(index, keys, Board, 2).value| <= 2
    ensures Solve(index, keys, Board, 3).Some?
  {
    BudgetChain(index);
    SolveChainShortest(index, keys, Board, 2, ["adgjbehk", "kcfil"], 'a');
    SolveChainAgrees(index, keys, Board, 2);
  }

  /** The sides pass `side_validator` and both words are kept. */
  lemma BudgetLegal()
    ensures forall i | 0 <= i < 4 :: SideCheck(Sides[i]).Pass?
    ensures forall w | w in BudgetLines :: Keep(Board, w)
  {
    SidesPass();
    WordsAreKept();
  }

  /**
   * With `max_words` 2 the search as written finds nothing, although the
   * two-word chain adgjbehk, kcfil covers the board; with `max_words` 3 it
   * finds an answer, and the corrected search finds a chain of at most two
   * words with `max_words` 2.
   */
  lemma BudgetExample(index: Index, keys: seq<char>)
    requires BuiltFrom(index, BudgetLines) && Enumerates(keys, index)
    ensures forall i | 0 <= i < 4 :: SideCheck(Sides[i]).Pass?
    ensures forall w | w in BudgetLines :: Keep(Board, w)
    ensures Linked(index)
    ensures IsChain(index, ["adgjbehk", "kcfil"]) && AllLetters(Board) <= ChainLetters(["adgjbehk", "kcfil"])
    ensures Solve(index, keys, Board, 2) == None
    ensures Solve(index, keys, Board, 3).Some?
    ensures SolveChain(index, keys, Board, 2).Some?
    ensures |SolveChain(index, keys, Board, 2).value| <= 2
  {
    BudgetLegal();
    BudgetIndex(index);
    BudgetSolve(index, keys);
    BudgetChain(index);
    BudgetFixed(index, keys);
  }

  /** `main` on this input: build the index, then search with `max_words` 2, keys in any order. */
  method BudgetRun(keys: seq<char>) returns (answer: Option<seq<string>>, fixed: Option<seq<string>>)
    requires Alphabet(keys)
    ensures answer == None
    ensures fixed.Some? && |fixed.value| <= 2
  {
    BoardLowercase();
    var index := BuildIndex(BudgetLines, Board);
    BudgetExample(index, keys);
    answer := Solve(index, keys, Board, 2);
    fixed := SolveChain(index, keys, Board, 2);
  }
}

/**
 * The puzzle model of the Letter Boxed solver (unbox/src/main.rs):
 * the check on one side given on the command line, the four sides as
 * letter sets, and the check that a word could have been traced on the box.
 */
module Puzzle {

  /** The distinct letters of a string (a `Set64<char>` collected from `chars()`). */
  function Letters(s: string): set<char> {
    set c | c in s
  }

  /** What `side_validator` returns: `Ok(())` or an error message. */
  datatype Outcome = Pass | Fail(message: string)

  const SideMessage := "puzzle sides must be three unique letters (one side of a puzzle)"

  /**
   * `side_validator`: a side is accepted exactly when it has three
   * characters and they are pairwise distinct.
   */
  function SideCheck(side: string): (r: Outcome)
    ensures r.Pass? <==>
      |side| == 3 && side[0] != side[1] && side[0] != side[2] && side[1] != side[2]
    ensures r.Fail? ==> r.message == SideMessage
  {
    if |side| != 3 then Fail(SideMessage)
    else
      ThreeLetters(side);
      if |Letters(side)| != 3 then Fail(SideMessage) else Pass
  }

  /** The letters of a three-character string and how many distinct ones there are. */
  lemma ThreeLetters(side: string)
    requires |side| == 3
    ensures Letters(side) == {side[0], side[1], side[2]}
    ensures |Letters(side)| == 3 <==> side[0] != side[1] && side[0] != side[2] && side[1] != side[2]
  {
    assert Letters(side) == {side[0], side[1], side[2]} by {
      forall c | c in Letters(side) ensures c in {side[0], side[1], side[2]} {
        assert c in side;
      }
    }
    var a, b, c := side[0], side[1], side[2];
    if a == b || a == c || b == c {
      assert {a, b, c} == {a, c} || {a, b, c} == {a, b};
    }
  }

  /** The four sides, in the order they were given. */
  type Puzzle = p: seq<set<char>> | |p| == 4 witness [{}, {}, {}, {}]

  /** The `puzzle` block of `main`: each side becomes the set of its characters. */
  function MakePuzzle(sides: seq<string>): (p: Puzzle)
    requires |sides| == 4
    ensures forall i | 0 <= i < 4 :: p[i] == Letters(sides[i])
  {
    [Letters(sides[0]), Letters(sides[1]), Letters(sides[2]), Letters(sides[3])]
  }

  /** Sides that passed `side_validator` give letter sets of size three. */
  lemma CheckedSidesHaveThreeLetters(sides: seq<string>)
    requires |sides| == 4
    requires forall i | 0 <= i < 4 :: SideCheck(sides[i]).Pass?
    ensures forall i | 0 <= i < 4 :: |MakePuzzle(sides)[i]| == 3
  {
    forall i | 0 <= i < 4 ensures |MakePuzzle(sides)[i]| == 3 {
      ThreeLetters(sides[i]);
    }
  }

  /** The union of the four sides: the letters a solution must cover. */
  function AllLetters(p: Puzzle): (r: set<char>)
    ensures forall c :: c in r <==> exists i | 0 <= i < 4 :: c in p[i]
  {
    p[0] + p[1] + p[2] + p[3]
  }

  /** Every puzzle letter is a lower-case ASCII letter. */
  ghost predicate Lowercase(p: Puzzle) {
    forall c | c in AllLetters(p) :: 'a' <= c <= 'z'
  }

  /**
   * The scan over the sides in index order, starting at `from`, for the
   * first side other than `skip` that holds `c`; 4 when there is none.
   */
  function FirstSideFrom(p: Puzzle, c: char, skip: int, from: nat): (r: nat)
    requires from <= 4
    ensures from <= r <= 4
    ensures r < 4 ==> r != skip && c in p[r]
    ensures forall j | from <= j < r && j != skip :: c !in p[j]
    decreases 4 - from
  {
    if from == 4 then 4
    else if from != skip && c in p[from] then from
    else FirstSideFrom(p, c, skip, from + 1)
  }

  /**
   * The lowest-indexed side other than `skip` that holds `c`, or 4.
   * With `skip == 4` no side is skipped: that is how the first letter is placed.
   */
  function FirstSide(p: Puzzle, c: char, skip: int): (r: nat)
    ensures r <= 4
    ensures r < 4 ==> r != skip && c in p[r] && forall j | 0 <= j < r && j != skip :: c !in p[j]
    ensures r == 4 <==> forall j | 0 <= j < 4 && j != skip :: c !in p[j]
  {
    FirstSideFrom(p, c, skip, 0)
  }

  /**
   * Placing the letters of `rest` one by one, each on the first side other
   * than the side of the letter before it (`last`), never runs out of sides.
   */
  function GreedyValid(p: Puzzle, rest: string, last: nat): bool
    decreases |rest|
  {
    if rest == [] then true
    else
      var s := FirstSide(p, rest[0], last);
      s < 4 && GreedyValid(p, rest[1..], s)
  }

  /** What `validate` decides for a non-empty word. */
  function ValidWord(p: Puzzle, word: string): bool
    requires |word| > 0
  {
    var s := FirstSide(p, word[0], 4);
    s < 4 && GreedyValid(p, word[1..], s)
  }

  /**
   * `validate`: place the first letter on the lowest side holding it, then
   * each later letter on the lowest side holding it other than the side just
   * used, and reject the word as soon as a letter has nowhere to go.
   * An empty word is a panic in the source (`unwrap` on no first letter).
   */
  method Validate(word: string, p: Puzzle) returns (ok: bool)
    requires |word| > 0
    ensures ok == ValidWord(p, word)
  {
    var first := word[0];
    var lastSide := 4;
    var i := 0;
    while i < 4
      invariant 0 <= i <= 4
      invariant lastSide == 4
      invariant FirstSideFrom(p, first, 4, i) == FirstSide(p, first, 4)
    {
      if first in p[i] {
        lastSide := i;
        break;
      }
      i := i + 1;
    }
    if lastSide == 4 {
      return false;
    }

    var k := 1;
    while k < |word|
      invariant 1 <= k <= |word|
      invariant lastSide < 4
      invariant ValidWord(p, word) == GreedyValid(p, word[k..], lastSide)
    {
      var c := word[k];
      var prev := lastSide;
      var found := false;
      var j := 0;
      while j < 4
        invariant 0 <= j <= 4
        invariant !found && lastSide == prev
        invariant FirstSideFrom(p, c, prev, j) == FirstSide(p, c, prev)
      {
        if j == prev {
          j := j + 1;
          continue;
        }
        if c in p[j] {
          found := true;
          lastSide := j;
          break;
        }
        j := j + 1;
      }
      if !found {
        return false;
      }
      assert word[k..][1..] == word[k + 1..];
      k := k + 1;
    }
    return true;
  }

  // ---------------------------------------------------------------------
  // What a valid word looks like.

  /** Every letter of a valid word is on the puzzle. */
  lemma {:induction false} ValidWordOnPuzzle(p: Puzzle, word: string)
    requires |word| > 0 && ValidWord(p, word)
    ensures Letters(word) <= AllLetters(p)
  {
    GreedyOnPuzzle(p, word[1..], FirstSide(p, word[0], 4));
    assert word == [word[0]] + word[1..];
    forall c | c in Letters(word) ensures c in AllLetters(p) {
      if c != word[0] {
        assert c in word[1..];
      }
    }
  }

  lemma {:induction false} GreedyOnPuzzle(p: Puzzle, rest: string, last: nat)
    requires GreedyValid(p, rest, last)
    ensures forall c | c in rest :: c in AllLetters(p)
    decreases |rest|
  {
    if rest != [] {
      GreedyOnPuzzle(p, rest[1..], FirstSide(p, rest[0], last));
      forall c | c in rest ensures c in AllLetters(p) {
        if c != rest[0] {
          assert c in rest[1..];
        }
      }
    }
  }

  /** No letter is on two sides. */
  ghost predicate Disjoint(p: Puzzle) {
    forall i, j | 0 <= i < j < 4 :: p[i] * p[j] == {}
  }

  /** The side a letter is on (4 when it is on none). */
  function SideOf(p: Puzzle, c: char): nat {
    FirstSide(p, c, 4)
  }

  /**
   * The rule of the game for a board with four disjoint sides: every letter
   * is on the board and two neighbouring letters are never on the same side.
   */
  ghost predicate Traceable(p: Puzzle, word: string) {
    (forall i | 0 <= i < |word| :: word[i] in AllLetters(p)) &&
    (forall i | 0 <= i < |word| - 1 :: SideOf(p, word[i]) != SideOf(p, word[i + 1]))
  }

  /** On disjoint sides, a letter's side is the one side that holds it. */
  lemma SideOfDisjoint(p: Puzzle, c: char, skip: int)
    requires Disjoint(p)
    ensures SideOf(p, c) < 4 <==> c in AllLetters(p)
    ensures FirstSide(p, c, skip) == if SideOf(p, c) == skip then 4 else SideOf(p, c)
  {
    var s := SideOf(p, c);
    if s < 4 {
      forall j | 0 <= j < 4 && j != s ensures c !in p[j] {
        if j < s { assert c !in p[j]; }
        else {
          assert p[s] * p[j] == {};
          assert c !in p[s] * p[j];
        }
      }
    }
  }

  /**
   * On disjoint sides, `validate` accepts exactly the words that can be
   * traced on the board.
   */
  lemma ValidWordIffTraceable(p: Puzzle, word: string)
    requires Disjoint(p) && |word| > 0
    ensures ValidWord(p, word) <==> Traceable(p, word)
  {
    SideOfDisjoint(p, word[0], 4);
    if SideOf(p, word[0]) < 4 {
      GreedyTraceable(p, word[0], word[1..]);
      assert [word[0]] + word[1..] == word;
    } else {
      assert !Traceable(p, word) by { assert word[0] !in AllLetters(p); }
    }
  }

  lemma {:induction false} GreedyTraceable(p: Puzzle, prev: char, rest: string)
    requires Disjoint(p) && prev in AllLetters(p)
    ensures SideOf(p, prev) < 4
    ensures GreedyValid(p, rest, SideOf(p, prev)) <==> Traceable(p, [prev] + rest)
    decreases |rest|
  {
    SideOfDisjoint(p, prev, 4);
    var w := [prev] + rest;
    if rest != [] {
      var c := rest[0];
      SideOfDisjoint(p, c, SideOf(p, prev));
      SideOfDisjoint(p, c, 4);
      assert w[1] == c;
      if c in AllLetters(p) && SideOf(p, c) != SideOf(p, prev) {
        GreedyTraceable(p, c, rest[1..]);
        assert [c] + rest[1..] == rest;
        TraceableCons(p, prev, rest);
      } else {
        assert !Traceable(p, w) by {
          if c !in AllLetters(p) { assert w[1] !in AllLetters(p); }
          else { assert SideOf(p, w[0]) == SideOf(p, w[1]); }
        }
      }
    } else {
      assert w == [prev];
    }
  }

  /** A letter on the board in front of a traceable word, on another side than its first letter, keeps it traceable. */
  lemma TraceableCons(p: Puzzle, prev: char, rest: string)
    requires rest != [] && prev in AllLetters(p) && SideOf(p, prev) != SideOf(p, rest[0])
    ensures Traceable(p, [prev] + rest) <==> Traceable(p, rest)
  {
    var w := [prev] + rest;
    if Traceable(p, rest) {
      forall i | 0 <= i < |w| ensures w[i] in AllLetters(p) {
        if i > 0 { assert w[i] == rest[i - 1]; }
      }
      forall i | 0 <= i < |w| - 1 ensures SideOf(p, w[i]) != SideOf(p, w[i + 1]) {
        if i > 0 { assert w[i] == rest[i - 1] && w[i + 1] == rest[i]; }
      }
    }
    if Traceable(p, w) {
      forall i | 0 <= i < |rest| ensures rest[i] in AllLetters(p) {
        assert rest[i] == w[i + 1];
      }
      forall i | 0 <= i < |rest| - 1 ensures SideOf(p, rest[i]) != SideOf(p, rest[i + 1]) {
        assert rest[i] == w[i + 1] && rest[i + 1] == w[i + 2];
      }
    }
  }

  /** On disjoint sides a valid word never repeats a letter twice in a row. */
  lemma NoDoubledLetter(p: Puzzle, word: string, i: int)
    requires Disjoint(p) && |word| > 0 && ValidWord(p, word)
    requires 0 <= i < |word| - 1
    ensures word[i] != word[i + 1]
  {
    ValidWordIffTraceable(p, word);
  }

  // ---------------------------------------------------------------------
  // Sides that share a letter: `side_validator` checks each side on its own,
  // so nothing stops two sides from sharing a letter.

  const Overlapping: Puzzle := [{'a', 'b', 'c'}, {'a', 'd', 'e'}, {'f', 'g', 'h'}, {'i', 'j', 'k'}]

  /** A letter on two sides can be used twice in a row. */
  lemma OverlapAllowsDoubledLetter()
    ensures ValidWord(Overlapping, "aa")
  {
    assert FirstSide(Overlapping, 'a', 4) == 0;
    assert FirstSide(Overlapping, 'a', 0) == 1;
  }

  /**
   * A side assignment for a word: each letter on a side that holds it, and
   * neighbouring letters on different sides.
   */
  ghost predicate IsRoute(p: Puzzle, word: string, route: seq<int>) {
    |route| == |word| &&
    (forall i | 0 <= i < |word| :: 0 <= route[i] < 4 && word[i] in p[route[i]]) &&
    (forall i | 0 <= i < |word| - 1 :: route[i] != route[i + 1])
  }

  /**
   * The lowest-side-first choice can decide the outcome: "ab" has a route
   * (a on side 1, b on side 0) but `validate` puts a on side 0 and then finds
   * no other side for b.
   */
  lemma GreedyChoiceMatters()
    ensures IsRoute(Overlapping, "ab", [1, 0])
    ensures !ValidWord(Overlapping, "ab")
  {
    assert FirstSide(Overlapping, 'a', 4) == 0;
    assert FirstSide(Overlapping, 'b', 0) == 4;
  }

  /**
   * The sides `validate` picks for `rest`: each letter goes on the lowest
   * side holding it other than the side of the letter before it.
   */
  function GreedyRoute(p: Puzzle, rest: string, last: nat): (route: seq<int>)
    ensures |route| == |rest|
    decreases |rest|
  {
    if rest == [] then []
    else
      var s := FirstSide(p, rest[0], last);
      [s] + GreedyRoute(p, rest[1..], s)
  }

  /**
   * When the scan accepts `rest`, the sides it picked form a route, and the
   * first of them differs from the side of the letter before.
   */
  lemma {:induction false} GreedyRouteIsRoute(p: Puzzle, rest: string, last: nat)
    requires GreedyValid(p, rest, last)
    ensures IsRoute(p, rest, GreedyRoute(p, rest, last))
    ensures |rest| > 0 ==> GreedyRoute(p, rest, last)[0] != last
    decreases |rest|
  {
    if rest != [] {
      var s := FirstSide(p, rest[0], last);
      var tail := GreedyRoute(p, rest[1..], s);
      GreedyRouteIsRoute(p, rest[1..], s);
      var route := GreedyRoute(p, rest, last);
      assert route == [s] + tail;
      forall i | 0 <= i < |rest| ensures 0 <= route[i] < 4 && rest[i] in p[route[i]] {
        if i > 0 {
          assert route[i] == tail[i - 1] && rest[i] == rest[1..][i - 1];
        }
      }
      forall i | 0 <= i < |rest| - 1 ensures route[i] != route[i + 1] {
        if i > 0 {
          assert route[i] == tail[i - 1] && route[i + 1] == tail[i];
        }
      }
    }
  }

  /**
   * On every board, including ones whose sides share letters, a word that
   * `validate` accepts can be traced: each letter on a side holding it, and
   * each letter on a different side than the letter before it.
   */
  lemma ValidWordHasRoute(p: Puzzle, word: string)
    requires |word| > 0 && ValidWord(p, word)
    ensures exists route :: IsRoute(p, word, route)
  {
    var s := FirstSide(p, word[0], 4);
    GreedyRouteIsRoute(p, word[1..], s);
    var tail := GreedyRoute(p, word[1..], s);
    var route := [s] + tail;
    forall i | 0 <= i < |word| ensures 0 <= route[i] < 4 && word[i] in p[route[i]] {
      if i > 0 {
        assert route[i] == tail[i - 1] && word[i] == word[1..][i - 1];
      }
    }
    forall i | 0 <= i < |word| - 1 ensures route[i] != route[i + 1] {
      if i > 0 {
        assert route[i] == tail[i - 1] && route[i + 1] == tail[i];
      }
    }
    assert IsRoute(p, word, route);
  }

  // ---------------------------------------------------------------------
  // The regression fixture of the source's test module.

  const Fixture: Puzzle := MakePuzzle(["uoa", "qtl", "ein", "ysm"])

  lemma FixtureSides()
    ensures Fixture == [{'u', 'o', 'a'}, {'q', 't', 'l'}, {'e', 'i', 'n'}, {'y', 's', 'm'}]
  {
    ThreeLetters("uoa");
    ThreeLetters("qtl");
    ThreeLetters("ein");
    ThreeLetters("ysm");
  }

  lemma FixtureAcceptsMelonySteps()
    ensures Fixture == [{'u', 'o', 'a'}, {'q', 't', 'l'}, {'e', 'i', 'n'}, {'y', 's', 'm'}]
    ensures FirstSide(Fixture, 'm', 4) == 3
    ensures FirstSide(Fixture, 'e', 3) == 2
    ensures FirstSide(Fixture, 'l', 2) == 1
    ensures FirstSide(Fixture, 'o', 1) == 0
    ensures FirstSide(Fixture, 'n', 0) == 2
    ensures FirstSide(Fixture, 'y', 2) == 3
  {
    FixtureSides();
  }

  lemma FixtureAcceptsMelony()
    ensures ValidWord(Fixture, "melony")
  {
    FixtureAcceptsMelonySteps();
    var p := Fixture;
    var w := "melony";
    assert GreedyValid(p, w[5..], 2);
    assert GreedyValid(p, w[4..], 0);
    assert GreedyValid(p, w[3..], 1);
    assert GreedyValid(p, w[2..], 2);
    assert GreedyValid(p, w[1..], 3);
  }

  lemma FixtureAcceptsYeastSteps()
    ensures Fixture == [{'u', 'o', 'a'}, {'q', 't', 'l'}, {'e', 'i', 'n'}, {'y', 's', 'm'}]
    ensures FirstSide(Fixture, 'y', 4) == 3
    ensures FirstSide(Fixture, 'e', 3) == 2
    ensures FirstSide(Fixture, 'a', 2) == 0
    ensures FirstSide(Fixture, 's', 0) == 3
    ensures FirstSide(Fixture, 't', 3) == 1
  {
    FixtureSides();
  }

  lemma FixtureAcceptsYeast()
    ensures ValidWord(Fixture, "yeast")
  {
    FixtureAcceptsYeastSteps();
  }

  lemma FixtureAcceptsTequilaSteps()
    ensures Fixture == [{'u', 'o', 'a'}, {'q', 't', 'l'}, {'e', 'i', 'n'}, {'y', 's', 'm'}]
    ensures FirstSide(Fixture, 't', 4) == 1
    ensures FirstSide(Fixture, 'e', 1) == 2
    ensures FirstSide(Fixture, 'q', 2) == 1
    ensures FirstSide(Fixture, 'u', 1) == 0
    ensures FirstSide(Fixture, 'i', 0) == 2
    ensures FirstSide(Fixture, 'l', 2) == 1
    ensures FirstSide(Fixture, 'a', 1) == 0
  {
    FixtureSides();
  }

  lemma FixtureAcceptsTequila()
    ensures ValidWord(Fixture, "tequila")
  {
    FixtureAcceptsTequilaSteps();
    var p := Fixture;
    assert GreedyValid(p, "a", 1);
    assert GreedyValid(p, "la", 2);
    assert GreedyValid(p, "ila", 0);
    assert GreedyValid(p, "uila", 1);
    assert GreedyValid(p, "quila", 2);
    assert GreedyValid(p, "equila", 1);
  }

  lemma FixtureRejectsQuinoaSteps()
    ensures Fixture == [{'u', 'o', 'a'}, {'q', 't', 'l'}, {'e', 'i', 'n'}, {'y', 's', 'm'}]
    ensures FirstSide(Fixture, 'q', 4) == 1
    ensures FirstSide(Fixture, 'u', 1) == 0
    ensures FirstSide(Fixture, 'i', 0) == 2
    ensures FirstSide(Fixture, 'n', 2) == 4
  {
    FixtureSides();
  }

  lemma FixtureRejectsQuinoa()
    ensures !ValidWord(Fixture, "quinoa")
  {
    FixtureRejectsQuinoaSteps();
  }
}

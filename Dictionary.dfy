/**
 * The dictionary index of the solver (unbox/src/main.rs:50-66): a bucket for
 * every letter 'a'..'z' holding, in file order, the dictionary lines that
 * start with that letter, pass `validate` and have at least three letters.
 */
module Dictionary {
  import opened Puzzle

  /** `HashMap<char, Vec<&str>>`: first letter to words. */
  type Index = map<char, seq<string>>

  /** The keys inserted by `for c in 'a'..='z'`: exactly the lower-case letters. */
  ghost predicate HasAlphabetKeys(index: Index) {
    forall c :: c in index <==> 'a' <= c <= 'z'
  }

  /** The filter of `main`: `validate(word, &puzzle) && word.len() >= 3`. */
  predicate Keep(p: Puzzle, word: string) {
    |word| > 0 && ValidWord(p, word) && |word| >= 3
  }

  /** The words of `lines` that bucket `c` receives, in file order. */
  function Bucket(lines: seq<string>, p: Puzzle, c: char): seq<string>
    decreases |lines|
  {
    if lines == [] then []
    else
      var last := lines[|lines| - 1];
      Bucket(lines[..|lines| - 1], p, c) + if Keep(p, last) && last[0] == c then [last] else []
  }

  /**
   * The loops of `main` that build `starts_with`: insert an empty bucket for
   * every lower-case letter, then append every kept line to the bucket of its
   * first letter. A blank line would make `validate` panic, and a kept word
   * whose first letter had no bucket would make `unwrap` panic; the second
   * cannot happen when the puzzle letters are lower-case.
   */
  method BuildIndex(lines: seq<string>, p: Puzzle) returns (index: Index)
    requires Lowercase(p)
    requires forall i | 0 <= i < |lines| :: |lines[i]| > 0
    ensures HasAlphabetKeys(index)
    ensures forall c | c in index :: index[c] == Bucket(lines, p, c)
  {
    index := map[];
    var c := 'a';
    while c <= 'z'
      invariant 'a' <= c <= '{'
      invariant forall x :: x in index <==> 'a' <= x < c
      invariant forall x | x in index :: index[x] == []
    {
      index := index[c := []];
      c := (c as int + 1) as char;
    }

    var i := 0;
    while i < |lines|
      invariant 0 <= i <= |lines|
      invariant HasAlphabetKeys(index)
      invariant forall x | x in index :: index[x] == Bucket(lines[..i], p, x)
    {
      var word := lines[i];
      assert lines[..i + 1][..i] == lines[..i];
      var ok := Validate(word, p);
      if ok && |word| >= 3 {
        var first := word[0];
        ValidWordOnPuzzle(p, word);
        assert first in Letters(word);
        index := index[first := index[first] + [word]];
      }
      i := i + 1;
    }
    assert lines[..|lines|] == lines;
  }

  /** Bucket `c` holds exactly the kept lines that start with `c`. */
  lemma {:induction false} BucketMembers(lines: seq<string>, p: Puzzle, c: char, w: string)
    ensures w in Bucket(lines, p, c) <==> w in lines && Keep(p, w) && w[0] == c
    decreases |lines|
  {
    if lines != [] {
      var init := lines[..|lines| - 1];
      BucketMembers(init, p, c, w);
      assert lines == init + [lines[|lines| - 1]];
    }
  }

  /** Buckets keep file order: the bucket of two files read one after the other. */
  lemma {:induction false} BucketAppend(a: seq<string>, b: seq<string>, p: Puzzle, c: char)
    ensures Bucket(a + b, p, c) == Bucket(a, p, c) + Bucket(b, p, c)
    decreases |b|
  {
    if b == [] {
      assert a + b == a;
    } else {
      var init := b[..|b| - 1];
      BucketAppend(a, init, p, c);
      assert (a + b)[..|a + b| - 1] == a + init;
    }
  }

  /** A word with letters left: its last letter has a bucket. */
  predicate Linkable(index: Index, word: string) {
    |word| > 0 && word[|word| - 1] in index
  }

  /** Every word of every bucket is linkable: the lookups of the search succeed. */
  ghost predicate Linked(index: Index) {
    forall c, w | c in index && w in index[c] :: Linkable(index, w)
  }

  /**
   * The index built from any dictionary is one the search can walk: each
   * word of bucket `c` starts with `c`, passes `validate`, has at least three
   * letters, and its last letter has a bucket.
   */
  lemma BuiltIndexIsLinked(lines: seq<string>, p: Puzzle, index: Index)
    requires Lowercase(p)
    requires HasAlphabetKeys(index)
    requires forall c | c in index :: index[c] == Bucket(lines, p, c)
    ensures Linked(index)
    ensures forall c, w | c in index && w in index[c] :: |w| > 0 && w[0] == c && Keep(p, w)
  {
    forall c, w | c in index && w in index[c]
      ensures Linkable(index, w) && |w| > 0 && w[0] == c && Keep(p, w)
    {
      BucketMembers(lines, p, c, w);
      ValidWordOnPuzzle(p, w);
      assert w[|w| - 1] in Letters(w);
    }
  }
}

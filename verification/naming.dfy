/** The collision-avoiding file name choice of the upload handler: while the
    name is taken in the images directory, one random ASCII letter is put in
    front of the last dotted segment. */
module Naming {
  import opened PyText

  /** Membership in Python 2's `string.letters` in the C locale: the 52
      ASCII letters `a`-`z` and `A`-`Z`. */
  predicate IsLetter(c: char)
  {
    'a' <= c <= 'z' || 'A' <= c <= 'Z'
  }

  /** `'.'.join(name.split('.')[:-1])`: the stem of a name. */
  function Stem(name: string): string
  {
    var parts := Split(name, '.');
    Join('.', parts[..|parts| - 1])
  }

  /** `name.split('.')[-1]`: the last dotted segment of a name. */
  function LastSegment(name: string): string
  {
    var parts := Split(name, '.');
    parts[|parts| - 1]
  }

  /** What the stem and the last segment are: without a '.', an empty stem
      and the whole name; otherwise the text before and after the last '.'.
      The last segment never holds a '.'. */
  lemma {:induction false} Segments(name: string)
    ensures '.' !in LastSegment(name)
    ensures '.' !in name ==> Stem(name) == [] && LastSegment(name) == name
    ensures '.' in name ==>
              var k := RFind(name, '.');
              Stem(name) == name[..k] && LastSegment(name) == name[k + 1..]
  {
    if '.' !in name {
      SplitNoSep(name, '.');
    } else {
      var k := RFind(name, '.');
      assert name == name[..k] + ['.'] + name[k + 1..];
      SplitLastSep(name[..k], '.', name[k + 1..]);
      JoinSplit(name[..k], '.');
      var parts := Split(name, '.');
      assert parts[..|parts| - 1] == Split(name[..k], '.');
    }
  }

  /** One step of the rename loop (upload_image, the loop body):
      `'.'.join(name.split('.')[:-1]) + letter + '.' + name.split('.')[-1]`.
      Each step makes the name strictly longer. */
  function Rename(name: string, letter: char): (r: string)
    ensures |r| > |name|
  {
    Segments(name);
    Stem(name) + [letter] + "." + LastSegment(name)
  }

  /** For a letter other than '.', a rename appends the letter to the stem
      and keeps the last segment. */
  lemma RenameKeepsSegments(name: string, letter: char)
    requires letter != '.'
    ensures Stem(Rename(name, letter)) == Stem(name) + [letter]
    ensures LastSegment(Rename(name, letter)) == LastSegment(name)
  {
    var stem, last := Stem(name), LastSegment(name);
    Segments(name);
    assert Rename(name, letter) == (stem + [letter]) + ['.'] + last;
    SplitLastSep(stem + [letter], '.', last);
    JoinSplit(stem + [letter], '.');
  }

  /** For a name containing '.', a rename puts the letter just before the
      last '.', keeps everything else, and grows the name by exactly one. */
  lemma RenameWithDot(name: string, letter: char)
    requires '.' in name
    ensures var k := RFind(name, '.');
            Rename(name, letter) == name[..k] + [letter] + name[k..]
    ensures |Rename(name, letter)| == |name| + 1
  {
    Segments(name);
    InsertBeforeDot(name, RFind(name, '.'), letter, Rename(name, letter));
  }

  /** Putting `letter` before the '.' at index `k`, written as the text
      before it, the letter, '.' and the text after it. */
  lemma InsertBeforeDot(name: string, k: int, letter: char, r: string)
    requires 0 <= k < |name| && name[k] == '.'
    requires r == name[..k] + [letter] + "." + name[k + 1..]
    ensures r == name[..k] + [letter] + name[k..]
    ensures |r| == |name| + 1
  {
    assert name[k..] == ['.'] + name[k + 1..];
  }

  /** For a name without '.', a rename gives `letter + '.' + name`: the old
      name becomes the extension and the name grows by exactly two. */
  lemma RenameWithoutDot(name: string, letter: char)
    requires '.' !in name
    ensures Rename(name, letter) == [letter, '.'] + name
    ensures |Rename(name, letter)| == |name| + 2
  {
    Segments(name);
  }

  /** The name after the loop has renamed `name` once for each of `letters`,
      in order; every rename makes it longer. */
  function RenameChain(name: string, letters: string): (r: string)
    ensures |r| >= |name| + |letters|
    decreases |letters|
  {
    if letters == [] then name
    else Rename(RenameChain(name, letters[..|letters| - 1]), letters[|letters| - 1])
  }

  /** Once at least one letter (none of them '.') has been used, the chained
      name is the original stem, then the letters in the order drawn, then
      '.', then the original last segment: the extension is kept. */
  lemma {:induction false} ChainShape(name: string, letters: string)
    requires |letters| > 0
    requires forall i :: 0 <= i < |letters| ==> letters[i] != '.'
    ensures RenameChain(name, letters) == Stem(name) + letters + "." + LastSegment(name)
    ensures Stem(RenameChain(name, letters)) == Stem(name) + letters
    ensures LastSegment(RenameChain(name, letters)) == LastSegment(name)
    decreases |letters|
  {
    var front, c := letters[..|letters| - 1], letters[|letters| - 1];
    assert letters == front + [c];
    if front == [] {
      ShapeStep(name, c, Stem(name), [], LastSegment(name));
    } else {
      forall i | 0 <= i < |front| ensures front[i] != '.' {
        assert front[i] == letters[i];
      }
      ChainShape(name, front);
      ShapeStep(RenameChain(name, front), c, Stem(name), front, LastSegment(name));
    }
  }

  /** One more rename of a name whose stem is `stem + front` and whose last
      segment is `last`. */
  lemma ShapeStep(prev: string, c: char, stem: string, front: string, last: string)
    requires c != '.'
    requires Stem(prev) == stem + front && LastSegment(prev) == last
    ensures Rename(prev, c) == stem + (front + [c]) + "." + last
    ensures Stem(Rename(prev, c)) == stem + (front + [c])
    ensures LastSegment(Rename(prev, c)) == last
  {
    RenameKeepsSegments(prev, c);
    assert stem + front + [c] == stem + (front + [c]);
  }

  /** After `n > 0` renames the name has grown by exactly `n` when it held a
      '.', and by `n + 1` when it did not (the first rename adds the '.'). */
  lemma ChainLength(name: string, letters: string)
    requires |letters| > 0
    requires forall i :: 0 <= i < |letters| ==> letters[i] != '.'
    ensures |RenameChain(name, letters)| == |name| + |letters| + (if '.' in name then 0 else 1)
  {
    ChainShape(name, letters);
    Segments(name);
    if '.' in name {
      var k := RFind(name, '.');
      assert |name| == |name[..k]| + 1 + |name[k + 1..]|;
    }
  }

  /** The letters the loop chose: all from the 52 ASCII letters. */
  predicate AllLetters(chosen: string)
  {
    forall i :: 0 <= i < |chosen| ==> IsLetter(chosen[i])
  }

  /** Every candidate before the last one, renamed from `filename` with the
      first `i` of the chosen letters, was taken in the listing. */
  predicate AllTaken(filename: string, chosen: string, listing: set<string>)
  {
    forall i :: 0 <= i < |chosen| ==> RenameChain(filename, chosen[..i]) in listing
  }

  /** The state of the rename loop after the letters `chosen`: `name` is the
      current candidate, and `seen` holds the candidates rejected so far, one
      per letter, all taken in the listing and all shorter than `name`. */
  ghost predicate LoopState(filename: string, listing: set<string>, name: string, chosen: string, seen: set<string>)
  {
    && seen <= listing
    && |seen| == |chosen|
    && (forall x :: x in seen ==> |x| < |name|)
    && AllLetters(chosen)
    && name == RenameChain(filename, chosen)
    && AllTaken(filename, chosen, listing)
  }

  /** One more turn of the loop keeps its state, and the taken candidate is
      one that was not rejected before, so the set of rejected candidates
      grows inside the listing. */
  lemma LoopStep(filename: string, listing: set<string>, name: string, chosen: string, seen: set<string>, c: char)
    requires LoopState(filename, listing, name, chosen, seen)
    requires name in listing && IsLetter(c)
    ensures name !in seen
    ensures LoopState(filename, listing, Rename(name, c), chosen + [c], seen + {name})
  {
    TakenStep(filename, chosen, c, listing);
    assert |seen + {name}| == |seen| + 1;
  }

  /** One more turn of the loop: the candidate it rejected was taken, and
      the new candidate is the old one renamed with the drawn letter. */
  lemma TakenStep(filename: string, chosen: string, c: char, listing: set<string>)
    requires AllTaken(filename, chosen, listing)
    requires AllLetters(chosen) && IsLetter(c)
    requires RenameChain(filename, chosen) in listing
    ensures AllTaken(filename, chosen + [c], listing)
    ensures AllLetters(chosen + [c])
    ensures RenameChain(filename, chosen + [c]) == Rename(RenameChain(filename, chosen), c)
  {
    var next := chosen + [c];
    assert next[..|chosen|] == chosen;
    forall i | 0 <= i < |next| ensures RenameChain(filename, next[..i]) in listing {
      assert next[..i] == chosen[..i];
    }
  }

  /** The loop of upload_image: starting from the uploaded file name, rename
      while the name is in the directory listing, taking each letter from
      the 52 ASCII letters nondeterministically (it is `random.choice` in the program).
      Every candidate tried before the result was in the listing, the result
      is not, and the loop runs at most as many times as the listing has
      entries, whatever letters are drawn. */
  method ResolveName(filename: string, listing: set<string>) returns (name: string, ghost chosen: string)
    ensures name !in listing
    ensures filename !in listing ==> name == filename && chosen == []
    ensures AllLetters(chosen)
    ensures name == RenameChain(filename, chosen)
    ensures AllTaken(filename, chosen, listing)
    ensures |chosen| <= |listing|
  {
    name, chosen := filename, [];
    ghost var seen: set<string> := {};
    while name in listing
      invariant LoopState(filename, listing, name, chosen, seen)
      decreases listing - seen
    {
      assert IsLetter('a');
      var c :| IsLetter(c);
      LoopStep(filename, listing, name, chosen, seen, c);
      seen := seen + {name};
      chosen := chosen + [c];
      name := Rename(name, c);
    }
    if chosen != [] {
      assert chosen[..0] == [];
    }
    SubsetCard(seen, listing);
  }

  lemma {:induction false} SubsetCard(a: set<string>, b: set<string>)
    requires a <= b
    ensures |a| <= |b|
    decreases |a|
  {
    if a != {} {
      var x :| x in a;
      SubsetCard(a - {x}, b - {x});
    }
  }
}

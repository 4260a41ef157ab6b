/** Name and city normalisation of `packages/contracts/src/matching.ts`. Lower-casing and the letter
    class are ASCII, as in the source's `[^a-z\s]`. */
module Names {
  import opened Text
  import opened Identity
  import opened Sorting

  predicate IsLetter(c: char) {
    'a' <= c <= 'z'
  }

  /** Everything but letters and white space becomes a space. */
  function LettersOnly(s: string): (r: string)
    ensures |r| == |s|
  {
    seq(|s|, i requires 0 <= i < |s| => if IsLetter(s[i]) || IsSpace(s[i]) then s[i] else ' ')
  }

  /** The non-empty pieces between white space; `word` is the piece being read. */
  function Words(s: string, word: string): seq<string> {
    if s == [] then (if word == [] then [] else [word])
    else if IsSpace(s[0]) then (if word == [] then [] else [word]) + Words(s[1..], "")
    else Words(s[1..], word + [s[0]])
  }

  const HONORIFICS: set<string> := {"mr", "mrs", "ms", "miss", "dr", "shri", "smt", "sri", "md"}

  function NotHonorific(): string -> bool {
    (w: string) => w !in HONORIFICS
  }

  /** Code-unit order, as `sort()` compares strings by default. */
  predicate Lexicographic(a: string, b: string) {
    a == [] || (b != [] && (a[0] < b[0] || (a[0] == b[0] && Lexicographic(a[1..], b[1..]))))
  }

  function Join(words: seq<string>): string {
    if words == [] then ""
    else if |words| == 1 then words[0]
    else words[0] + " " + Join(words[1..])
  }

  function NameTokens(first: string, last: Option<string>): seq<string> {
    Select(Words(LettersOnly(Lower(first + " " + if last.Some? then last.value else "")), ""), NotHonorific())
  }

  function NormaliseName(first: string, last: Option<string>): string {
    Join(Sort(NameTokens(first, last), Lexicographic))
  }

  function NormaliseCity(value: Option<string>): Option<string> {
    if value.None? || value.value == [] then None
    else
      var cleaned := Keep(Lower(Trim(value.value)), (c: char) => IsLetter(c) || IsSpace(c));
      if |cleaned| > 0 then Some(cleaned) else None
  }

  // ---------------------------------------------------------------------------
  // The order of the two fields does not matter
  // ---------------------------------------------------------------------------

  lemma {:induction false} LexicographicTotal(a: string, b: string)
    ensures Lexicographic(a, b) || Lexicographic(b, a)
  {
    if a != [] && b != [] && a[0] == b[0] {
      LexicographicTotal(a[1..], b[1..]);
    }
  }

  lemma {:induction false} LexicographicTransitive(a: string, b: string, c: string)
    requires Lexicographic(a, b) && Lexicographic(b, c)
    ensures Lexicographic(a, c)
  {
    if a != [] && a[0] == b[0] == c[0] {
      LexicographicTransitive(a[1..], b[1..], c[1..]);
    }
  }

  lemma {:induction false} LexicographicAntisymmetric(a: string, b: string)
    requires Lexicographic(a, b) && Lexicographic(b, a)
    ensures a == b
  {
    if a != [] && b != [] {
      LexicographicAntisymmetric(a[1..], b[1..]);
      assert a == [a[0]] + a[1..] && b == [b[0]] + b[1..];
    }
  }

  lemma LexicographicIsOrder()
    ensures TotalPreorder(Lexicographic)
  {
    forall a, b ensures Lexicographic(a, b) || Lexicographic(b, a) { LexicographicTotal(a, b); }
    forall a, b, c | Lexicographic(a, b) && Lexicographic(b, c) ensures Lexicographic(a, c) { LexicographicTransitive(a, b, c); }
  }

  lemma HeadsEqual(xs: seq<string>, ys: seq<string>)
    requires multiset(xs) == multiset(ys) && Sorted(xs, Lexicographic) && Sorted(ys, Lexicographic) && xs != []
    ensures ys != [] && xs[0] == ys[0]
  {
    SameMultiset(xs, ys);
    assert xs[0] in ys && ys[0] in xs;
    LexicographicTotal(xs[0], xs[0]);
    LexicographicTotal(ys[0], ys[0]);
    assert Lexicographic(ys[0], xs[0]) && Lexicographic(xs[0], ys[0]);
    LexicographicAntisymmetric(xs[0], ys[0]);
  }

  /** Two sorted lists of the same words are the same list. */
  lemma {:induction false} SortedUnique(xs: seq<string>, ys: seq<string>)
    requires multiset(xs) == multiset(ys) && Sorted(xs, Lexicographic) && Sorted(ys, Lexicographic)
    ensures xs == ys
    decreases |xs|
  {
    SameMultiset(xs, ys);
    if xs != [] {
      HeadsEqual(xs, ys);
      assert xs == [xs[0]] + xs[1..] && ys == [ys[0]] + ys[1..];
      assert multiset(xs[1..]) == multiset(xs) - multiset{xs[0]};
      assert multiset(ys[1..]) == multiset(ys) - multiset{ys[0]};
      SortedUnique(xs[1..], ys[1..]);
    }
  }

  lemma {:induction false} WordsAtSpace(s: string, c: char, t: string, word: string)
    requires IsSpace(c)
    ensures Words(s + [c] + t, word) == Words(s, word) + Words(t, "")
    decreases |s|
  {
    if s == [] {
      assert s + [c] + t == [c] + t && ([c] + t)[1..] == t;
    } else {
      assert (s + [c] + t)[1..] == s[1..] + [c] + t;
      if IsSpace(s[0]) {
        WordsAtSpace(s[1..], c, t, "");
      } else {
        WordsAtSpace(s[1..], c, t, word + [s[0]]);
      }
    }
  }

  lemma {:induction false} SelectMultiset(xs: seq<string>, ys: seq<string>, keep: string -> bool)
    ensures multiset(Select(xs + ys, keep)) == multiset(Select(ys + xs, keep))
  {
    SelectAppend(xs, ys, keep);
    SelectAppend(ys, xs, keep);
  }

  lemma CleanedJoin(first: string, last: string)
    ensures LettersOnly(Lower(first + " " + last)) == LettersOnly(Lower(first)) + " " + LettersOnly(Lower(last))
  {
  }

  /** "Patel Asha" and "Asha Patel" are the same name. */
  lemma FieldOrderDoesNotMatter(first: string, last: string)
    ensures NormaliseName(first, Some(last)) == NormaliseName(last, Some(first))
  {
    var a, b := LettersOnly(Lower(first)), LettersOnly(Lower(last));
    CleanedJoin(first, last);
    CleanedJoin(last, first);
    WordsAtSpace(a, ' ', b, "");
    WordsAtSpace(b, ' ', a, "");
    SelectMultiset(Words(a, ""), Words(b, ""), NotHonorific());
    var xs, ys := NameTokens(first, Some(last)), NameTokens(last, Some(first));
    assert multiset(xs) == multiset(ys);
    SortPermutes(xs, Lexicographic);
    SortPermutes(ys, Lexicographic);
    LexicographicIsOrder();
    SortSorts(xs, Lexicographic);
    SortSorts(ys, Lexicographic);
    SortedUnique(Sort(xs, Lexicographic), Sort(ys, Lexicographic));
  }
}

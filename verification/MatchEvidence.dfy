/** What the duplicate scorer counts as evidence and how far it gets with it: `scoreMatch`, `findMatches`
    and `suggestDecision` of `packages/contracts/src/matching.ts`, said of the records themselves. */
module MatchEvidence {
  import opened Text
  import opened Identity
  import opened Names
  import opened Sorting
  import opened Matching
  import EditDistance

  // ---------------------------------------------------------------------------
  // Equal evidence
  // ---------------------------------------------------------------------------

  /** Both have an address, the same up to letter case and white space around it, with an at sign in it. */
  predicate SameEmail(a: Person, b: Person) {
    && a.email.Some? && b.email.Some?
    && Lower(Trim(a.email.value)) == Lower(Trim(b.email.value)) && '@' in Trim(a.email.value)
  }

  /** Both have a city, the same in letters and inner white space, letter case aside. */
  predicate SameCity(a: Person, b: Person) {
    && a.city.Some? && b.city.Some? && CityLetters(a.city.value) == CityLetters(b.city.value) && CityLetters(a.city.value) != ""
  }

  function CityLetters(city: string): string {
    Keep(Lower(Trim(city)), (c: char) => 'a' <= c <= 'z' || IsSpace(c))
  }

  /** The words of the name, in small letters, without what is no letter and without honorifics. */
  function NameWords(p: Person): multiset<string> {
    multiset(NameTokens(p.firstName, p.lastName))
  }

  predicate SameName(a: Person, b: Person) {
    NameWords(a) == NameWords(b) && NameWords(a) != multiset{}
  }

  /** Apart by at most three edits in twenty letters, or the same. */
  predicate CloseName(a: Person, b: Person) {
    var p, q := NormaliseName(a.firstName, a.lastName), NormaliseName(b.firstName, b.lastName);
    SameName(a, b) || (p != "" && q != "" && |p| <= 80 && |q| <= 80 && 20 * EditDistance.Distance(p, q) <= 3 * (if |p| > |q| then |p| else |q|))
  }

  /** Two different mobile numbers that end in the same four digits. */
  predicate SameLastFour(a: Person, b: Person) {
    var m, n := NormaliseMobile(a.mobile), NormaliseMobile(b.mobile);
    m.Some? && n.Some? && m.value != n.value && |m.value| == 10 && |n.value| == 10 && m.value[6..] == n.value[6..]
  }

  lemma EmailHintIff(a: Person, b: Person)
    ensures EmailHint(a, b) == if SameEmail(a, b) then [Signal(Email, 55)] else []
  {
    hide Trim;
    if a.email.Some? { AtSignKept(Trim(a.email.value)); }
    if b.email.Some? { AtSignKept(Trim(b.email.value)); }
    assert Trim("") == "" by { TrimEmpty(""); }
  }

  lemma AtSignKept(s: string)
    ensures '@' in Lower(s) <==> '@' in s
  {
    var l := Lower(s);
    forall i | 0 <= i < |s| ensures l[i] == '@' <==> s[i] == '@' { }
    if '@' in s { var i :| 0 <= i < |s| && s[i] == '@'; assert l[i] == '@'; }
    if '@' in l { var i :| 0 <= i < |l| && l[i] == '@'; assert s[i] == '@'; }
  }

  lemma {:induction false} KeepSame(s: string, p: char -> bool, q: char -> bool)
    requires forall c :: p(c) == q(c)
    ensures Keep(s, p) == Keep(s, q)
  {
    if s != [] { KeepSame(s[1..], p, q); }
  }

  lemma CityIs(city: string)
    ensures NormaliseCity(Some(city)) == if CityLetters(city) != "" then Some(CityLetters(city)) else None
  {
    hide Lower, Trim;
    assert Trim("") == "" by { TrimEmpty(""); }
    KeepSame(Lower(Trim(city)), (c: char) => IsLetter(c) || IsSpace(c), (c: char) => 'a' <= c <= 'z' || IsSpace(c));
  }

  lemma CityHintIff(a: Person, b: Person)
    ensures CityHint(a, b) == if SameCity(a, b) then [Signal(City, 15)] else []
  {
    hide Lower, Trim, NormaliseCity;
    if a.city.Some? { CityIs(a.city.value); }
    if b.city.Some? { CityIs(b.city.value); }
    NoCity();
  }

  lemma NoCity()
    ensures NormaliseCity(None) == None
  {
  }

  lemma PartialHintIff(a: Person, b: Person)
    ensures PartialHint(NormaliseMobile(a.mobile), NormaliseMobile(b.mobile)) == if SameLastFour(a, b) then [Signal(MobilePartial, 20)] else []
  {
    TenDigits(a.mobile);
    TenDigits(b.mobile);
    hide NormaliseMobile;
  }

  lemma TenDigits(mobile: Option<string>)
    ensures NormaliseMobile(mobile).Some? ==> |NormaliseMobile(mobile).value| == 10
  {
    hide Keep;
  }

  // ---------------------------------------------------------------------------
  // Equal names
  // ---------------------------------------------------------------------------

  predicate IsWord(w: string) {
    w != "" && forall i :: 0 <= i < |w| ==> !IsSpace(w[i])
  }

  lemma {:induction false} WordsAreWords(s: string, word: string)
    requires forall i :: 0 <= i < |word| ==> !IsSpace(word[i])
    ensures forall w <- Words(s, word) :: IsWord(w)
    decreases |s|
  {
    hide IsSpace;
    if s != [] {
      if IsSpace(s[0]) {
        WordsAreWords(s[1..], "");
      } else {
        WordsAreWords(s[1..], word + [s[0]]);
      }
    }
  }

  lemma {:induction false} WordIsWhole(w: string, word: string)
    requires forall i :: 0 <= i < |w| ==> !IsSpace(w[i])
    ensures Words(w, word) == if word + w == [] then [] else [word + w]
    decreases |w|
  {
    if w == [] {
      assert word + w == word;
    } else {
      assert word + w == (word + [w[0]]) + w[1..];
      WordIsWhole(w[1..], word + [w[0]]);
    }
  }

  /** Joined with spaces, words can be told apart again. */
  lemma {:induction false} WordsOfJoin(words: seq<string>)
    requires forall w <- words :: IsWord(w)
    ensures Words(Join(words), "") == words
    decreases |words|
  {
    hide IsSpace;
    if words != [] {
      var first := words[0];
      assert IsWord(first);
      WordIsWhole(first, "");
      assert "" + first == first;
      if |words| == 1 {
        assert Join(words) == first;
      } else {
        WordsOfJoin(words[1..]);
        assert IsSpace(' ') by { SpaceIsSpace(); }
        WordsAtSpace(first, ' ', Join(words[1..]), "");
        assert Join(words) == first + [' '] + Join(words[1..]);
      }
    }
  }

  lemma SpaceIsSpace()
    ensures IsSpace(' ')
  {
  }

  /** The words a name is compared by: those of both fields in small letters, everything but letters taken for white
      space, without the nine honorifics. */
  lemma NameWordsIff(p: Person, w: string)
    ensures w in NameWords(p) <==>
              && (w in Words(LettersOnly(Lower(p.firstName)), "") || (p.lastName.Some? && w in Words(LettersOnly(Lower(p.lastName.value)), "")))
              && w !in {"mr", "mrs", "ms", "miss", "dr", "shri", "smt", "sri", "md"}
    ensures forall v :: v in NameTokens(p.firstName, p.lastName) ==> IsWord(v)
  {
    hide LettersOnly, Lower, Words;
    var last := if p.lastName.Some? then p.lastName.value else "";
    var a, b := LettersOnly(Lower(p.firstName)), LettersOnly(Lower(last));
    CleanedJoin(p.firstName, last);
    assert IsSpace(' ') by { SpaceIsSpace(); }
    WordsAtSpace(a, ' ', b, "");
    var all := Words(LettersOnly(Lower(p.firstName + " " + last)), "");
    assert all == Words(a, "") + Words(b, "");
    assert p.lastName.None? ==> Words(b, "") == [] by { EmptyWords(); }
    WordsAreWords(LettersOnly(Lower(p.firstName + " " + last)), "");
    SelectElements(all, NotHonorific());
    HonorificsAre(w);
  }

  lemma EmptyWords()
    ensures Words(LettersOnly(Lower("")), "") == []
  {
    assert LettersOnly(Lower("")) == "";
  }

  lemma HonorificsAre(w: string)
    ensures NotHonorific()(w) <==> w !in {"mr", "mrs", "ms", "miss", "dr", "shri", "smt", "sri", "md"}
  {
  }

  /** Two names come out the same exactly if they have the same words, each as often; in whatever order and field. */
  lemma SameNormalNameIff(a: Person, b: Person)
    ensures NormaliseName(a.firstName, a.lastName) == NormaliseName(b.firstName, b.lastName) <==> NameWords(a) == NameWords(b)
    ensures NormaliseName(a.firstName, a.lastName) == "" <==> NameWords(a) == multiset{}
  {
    hide NameTokens, Join, Sort, Lexicographic;
    var xs, ys := NameTokens(a.firstName, a.lastName), NameTokens(b.firstName, b.lastName);
    var sx, sy := Sort(xs, Lexicographic), Sort(ys, Lexicographic);
    SortPermutes(xs, Lexicographic);
    SortPermutes(ys, Lexicographic);
    LexicographicIsOrder();
    SortSorts(xs, Lexicographic);
    SortSorts(ys, Lexicographic);
    NameWordsIff(a, "");
    NameWordsIff(b, "");
    WordsOfJoin(sx);
    WordsOfJoin(sy);
    if multiset(xs) == multiset(ys) {
      SortedUnique(sx, sy);
    }
    JoinEmptyIff(sx);
    assert |multiset(xs)| == |xs|;
  }

  lemma JoinEmptyIff(words: seq<string>)
    requires forall w <- words :: IsWord(w)
    ensures Join(words) == "" <==> words == []
  {
    if words != [] { assert IsWord(words[0]); }
  }

  /** A title in front of a name, in any case and with or without a stop, makes no difference. */
  lemma TitleDoesNotMatter(p: Person, title: string, w: string)
    requires Lower(title) in {"mr", "mrs", "ms", "miss", "dr", "shri", "smt", "sri", "md"}
    ensures w in NameWords(p.(firstName := title + " " + p.firstName)) <==> w in NameWords(p)
    ensures w in NameWords(p.(firstName := title + ". " + p.firstName)) <==> w in NameWords(p)
  {
    hide LettersOnly, Lower, Words, NameWords;
    NameWordsIff(p, w);
    NameWordsIff(p.(firstName := title + " " + p.firstName), w);
    NameWordsIff(p.(firstName := title + ". " + p.firstName), w);
    TitleWords(title, p.firstName);
  }

  lemma TitleWords(title: string, name: string)
    requires Lower(title) in {"mr", "mrs", "ms", "miss", "dr", "shri", "smt", "sri", "md"}
    ensures Words(LettersOnly(Lower(title + " " + name)), "") == [Lower(title)] + Words(LettersOnly(Lower(name)), "")
    ensures Words(LettersOnly(Lower(title + ". " + name)), "") == [Lower(title)] + Words(LettersOnly(Lower(name)), "")
  {
    var t, n := Lower(title), LettersOnly(Lower(name));
    TitleIsWord(title);
    SpaceIsSpace();
    hide IsSpace, Words, Lower, LettersOnly;
    CleanedJoin(title, name);
    WordIsWhole(t, "");
    assert "" + t == t;
    WordsAtSpace(t, ' ', n, "");
    assert t + " " + n == t + [' '] + n;
    WordsAtSpace(t, ' ', " " + n, "");
    WordsAtSpace("", ' ', n, "");
    WordIsWhole("", "");
    assert "" + [' '] + n == " " + n;
    StopIsSpace(title, name);
  }

  lemma TitleIsWord(title: string)
    requires Lower(title) in {"mr", "mrs", "ms", "miss", "dr", "shri", "smt", "sri", "md"}
    ensures LettersOnly(Lower(title)) == Lower(title)
    ensures Lower(title) != "" && forall i :: 0 <= i < |Lower(title)| ==> !IsSpace(Lower(title)[i])
  {
    var t := Lower(title);
    assert forall i :: 0 <= i < |t| ==> IsLetter(t[i]);
    assert LettersOnly(t) == t;
  }

  lemma StopIsSpace(title: string, name: string)
    requires LettersOnly(Lower(title)) == Lower(title)
    ensures LettersOnly(Lower(title + ". " + name)) == Lower(title) + [' '] + (" " + LettersOnly(Lower(name)))
  {
    var whole := Lower(title + ". " + name);
    var parts := Lower(title) + [' '] + (" " + LettersOnly(Lower(name)));
    forall i | 0 <= i < |whole| ensures LettersOnly(whole)[i] == parts[i] {
      if i < |title| {
        assert LettersOnly(Lower(title))[i] == Lower(title)[i] && whole[i] == Lower(title)[i];
      }
    }
  }

  lemma NameHintIff(a: Person, b: Person)
    ensures NameHint(Similarity(a, b)) == if SameName(a, b) then [Signal(NameExact, 25)] else if CloseName(a, b) then [Signal(NameClose, 15)] else []
    ensures Similarity(a, b) >= 0.85 <==> CloseName(a, b)
  {
    hide NormaliseName, NameSimilarity, NameWords;
    var p, q := NormaliseName(a.firstName, a.lastName), NormaliseName(b.firstName, b.lastName);
    SimilarityRange(p, q);
    CloseNames(p, q);
    SameNormalNameIff(a, b);
  }

  // ---------------------------------------------------------------------------
  // How far the evidence goes
  // ---------------------------------------------------------------------------

  function Points(evident: bool, points: nat): nat {
    if evident then points else 0
  }

  lemma {:induction false} SumOfMore(a: seq<Signal>, b: seq<Signal>)
    ensures SumPoints(a + b) == SumPoints(a) + SumPoints(b)
  {
    if a == [] {
      assert a + b == b;
    } else {
      assert (a + b)[1..] == a[1..] + b;
      SumOfMore(a[1..], b);
    }
  }

  /** The points: 100 for the PAN, 95 for the mobile; otherwise the hints add up to 89 at most, and city and last digits
      count only beside a close name. */
  lemma ScoreIs(input: Person, candidate: Candidate)
    ensures var other := candidate.person;
            var hints := Points(SameEmail(input, other), 55)
                       + (if SameName(input, other) then 25 else Points(CloseName(input, other), 15))
                       + Points(CloseName(input, other) && SameCity(input, other), 15)
                       + Points(CloseName(input, other) && SameLastFour(input, other), 20);
            Score(input, candidate).score == (
              if BothEqual(NormalisePan(input.pan), NormalisePan(other.pan)) then 100
              else if BothEqual(NormaliseMobile(input.mobile), NormaliseMobile(other.mobile)) then 95
              else if hints <= 89 then hints else 89)
  {
    hide NormalisePan, NormaliseMobile, SameEmail, SameName, CloseName, SameCity, SameLastFour, EmailHint, NameHint, CityHint, PartialHint, Similarity;
    var other := candidate.person;
    EmailHintIff(input, other);
    NameHintIff(input, other);
    CityHintIff(input, other);
    PartialHintIff(input, other);
    SumOfOne(Signal(Pan, 100));
    SumOfOne(Signal(Mobile, 95));
    HintsSum(input, other);
  }

  lemma HintsSum(a: Person, b: Person)
    ensures SumPoints(Hints(a, b)) == SumPoints(EmailHint(a, b)) + SumPoints(NameHint(Similarity(a, b)))
              + if Similarity(a, b) >= 0.85 then SumPoints(CityHint(a, b)) + SumPoints(PartialHint(NormaliseMobile(a.mobile), NormaliseMobile(b.mobile))) else 0
    ensures forall s: Signal :: SumPoints([s]) == s.points
  {
    hide NormaliseMobile, EmailHint, NameHint, CityHint, PartialHint, Similarity, SumPoints;
    var e, n := EmailHint(a, b), NameHint(Similarity(a, b));
    var c, p := CityHint(a, b), PartialHint(NormaliseMobile(a.mobile), NormaliseMobile(b.mobile));
    SumOfMore(e, n);
    SumOfMore(c, p);
    SumOfMore(e + n, if Similarity(a, b) >= 0.85 then c + p else []);
    assert SumPoints([]) == 0 by { SumOfNone(); }
    forall s: Signal ensures SumPoints([s]) == s.points { SumOfOne(s); }
  }

  lemma SumOfNone()
    ensures SumPoints([]) == 0
  {
  }

  /** Evidence without a shared identity: the name is close and the e-mail address the same, or the name is the same and
      so are the city and the last four digits. Nothing less makes a match probable; the address alone never does. */
  predicate Telling(a: Person, b: Person) {
    CloseName(a, b) && (SameEmail(a, b) || (SameName(a, b) && SameCity(a, b) && SameLastFour(a, b)))
  }

  /** Evidence worth showing all the same. */
  predicate Suggestive(a: Person, b: Person) {
    SameEmail(a, b) || (CloseName(a, b) && SameLastFour(a, b)) || (SameName(a, b) && SameCity(a, b))
  }

  lemma ConfidenceIff(input: Person, candidate: Candidate)
    ensures var confidence := Score(input, candidate).confidence;
            var other := candidate.person;
            && (confidence == Definite <==> SameIdentity(input, other))
            && (confidence == Probable <==> !SameIdentity(input, other) && Telling(input, other))
            && (confidence == Possible <==> !SameIdentity(input, other) && !Telling(input, other) && Suggestive(input, other))
  {
    hide NormalisePan, NormaliseMobile, SameEmail, SameName, SameCity, SameLastFour, Hints, SumPoints;
    ScoreIs(input, candidate);
    SameIsClose(input, candidate.person);
    hide CloseName;
    ConfidenceOfScore(input, candidate);
    hide Score;
  }

  lemma SameIsClose(a: Person, b: Person)
    ensures SameName(a, b) ==> CloseName(a, b)
  {
  }

  lemma ConfidenceOfScore(input: Person, candidate: Candidate)
    ensures var r := Score(input, candidate);
            r.confidence == if r.score >= 90 then Definite else if r.score >= 60 then Probable else if r.score >= 35 then Possible else NoMatch
  {
    hide NormalisePan, NormaliseMobile, Hints, SumPoints;
  }

  /** What is suggested for a row: to skip it if some candidate is the same person, else to review it if some candidate
      has telling evidence in common with it, else to create it. */
  lemma SuggestionIff(input: Person, candidates: seq<Candidate>, limit: nat)
    requires limit > 0
    ensures var suggested := SuggestDecision(Best(FindMatches(input, candidates, limit)));
            && (suggested == Skip <==> exists c <- candidates :: SameIdentity(input, c.person))
            && (suggested == Review <==>
                  (forall c <- candidates :: !SameIdentity(input, c.person)) && exists c <- candidates :: Telling(input, c.person))
  {
    hide FindMatches, Telling, Suggestive, SameIdentity;
    BestIsBest(input, candidates, limit);
    SkipIffSameIdentity(input, candidates, limit);
    forall c | c in candidates
      ensures Score(input, c).confidence == Definite <==> SameIdentity(input, c.person)
      ensures Score(input, c).confidence == Probable <==> !SameIdentity(input, c.person) && Telling(input, c.person)
      ensures Score(input, c).score >= 60 <==> Score(input, c).confidence == Definite || Score(input, c).confidence == Probable
      ensures WorthAttention(Score(input, c)) <==> Score(input, c).score >= 35
    {
      ConfidenceIff(input, c);
      ConfidenceOfScore(input, c);
    }
    hide Score, WorthAttention;
  }

  ghost function Worthwhile(input: Person, candidates: seq<Candidate>): set<nat> {
    set i: nat | i < |candidates| && Score(input, candidates[i]).score >= 35
  }

  lemma {:induction false} WorthwhileCount(input: Person, candidates: seq<Candidate>)
    ensures |Select(Scores(input, candidates), WorthAttention)| == |Worthwhile(input, candidates)|
    decreases |candidates|
  {
    hide Score;
    if candidates == [] {
      assert Worthwhile(input, candidates) == {};
    } else {
      var n: nat := |candidates| - 1;
      WorthwhileCount(input, candidates[..n]);
      var last := Score(input, candidates[n]);
      assert Scores(input, candidates) == Scores(input, candidates[..n]) + [last];
      SelectAppend(Scores(input, candidates[..n]), [last], WorthAttention);
      assert Select([last], WorthAttention) == if WorthAttention(last) then [last] else [] by { SelectCons(last, [], WorthAttention); assert [last] + [] == [last]; }
      ConfidenceOfScore(input, candidates[n]);
      assert Worthwhile(input, candidates) == Worthwhile(input, candidates[..n]) + if last.score >= 35 then {n} else {};
    }
  }

  /** What is shown for a record: matches of at least 35 points, the best first, as many as there are up to the limit. */
  lemma ShownMatches(input: Person, candidates: seq<Candidate>, limit: nat)
    ensures var shown := FindMatches(input, candidates, limit);
            && |shown| == (if |Worthwhile(input, candidates)| <= limit then |Worthwhile(input, candidates)| else limit)
            && (forall r <- shown :: r.score >= 35 && exists c <- candidates :: r == Score(input, c))
            && forall i, j :: 0 <= i < j < |shown| ==> shown[i].score >= shown[j].score
  {
    hide Score, Worthwhile, WorthAttention;
    var scores := Scores(input, candidates);
    var kept := Select(scores, WorthAttention);
    var sorted := Sort(kept, BetterFirst);
    WorthwhileCount(input, candidates);
    SelectElements(scores, WorthAttention);
    SortPermutes(kept, BetterFirst);
    BetterFirstIsPreorder();
    SortSorts(kept, BetterFirst);
    var shown := FindMatches(input, candidates, limit);
    forall r | r in shown ensures r.score >= 35 && exists c <- candidates :: r == Score(input, c) {
      assert r in sorted;
      var i :| 0 <= i < |scores| && scores[i] == r;
      assert candidates[i] in candidates;
      WorthMeans(input, candidates[i]);
    }
    forall i, j | 0 <= i < j < |shown| ensures shown[i].score >= shown[j].score {
      assert BetterFirst(sorted[i], sorted[j]);
    }
  }

  lemma WorthMeans(input: Person, c: Candidate)
    ensures WorthAttention(Score(input, c)) <==> Score(input, c).score >= 35
  {
    hide Score;
    ConfidenceOfScore(input, c);
  }
}

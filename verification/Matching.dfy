/** Duplicate scoring of `packages/contracts/src/matching.ts`: identity keys decide, everything else is
    evidence. Similarity is a real number; its one threshold, 0.85 on names of at most 80 characters,
    is met by the same pairs as in double precision. */
module Matching {
  import opened Text
  import opened Identity
  import opened Names
  import opened Sorting
  import EditDistance

  datatype Person = Person(
    firstName: string, lastName: Option<string>, mobile: Option<string>,
    email: Option<string>, pan: Option<string>, city: Option<string>)

  datatype Candidate = Candidate(id: string, person: Person)

  datatype Confidence = Definite | Probable | Possible | NoMatch

  datatype Code = Pan | Mobile | Email | NameExact | NameClose | City | MobilePartial

  datatype Signal = Signal(code: Code, points: nat)

  datatype MatchResult = MatchResult(candidate: Candidate, score: nat, confidence: Confidence, signals: seq<Signal>)

  datatype Decision = Create | Skip | Review

  const DEFINITE: nat := 90
  const PROBABLE: nat := 60
  const POSSIBLE: nat := 35

  function ConfidenceFor(score: nat): Confidence {
    if score >= DEFINITE then Definite else if score >= PROBABLE then Probable else if score >= POSSIBLE then Possible else NoMatch
  }

  function NormaliseEmail(value: Option<string>): Option<string> {
    if value.None? || value.value == [] then None
    else
      var trimmed := Lower(Trim(value.value));
      if '@' in trimmed then Some(trimmed) else None
  }

  function NameSimilarity(a: string, b: string): real {
    if a == "" || b == "" then 0.0
    else if a == b then 1.0
    else
      var longest := if |a| > |b| then |a| else |b|;
      if longest > 80 then 0.0
      else
        var similarity := 1.0 - EditDistance.Distance(a, b) as real / longest as real;
        if similarity > 0.0 then similarity else 0.0
  }

  predicate BothEqual(a: Option<string>, b: Option<string>) {
    a.Some? && b.Some? && a.value == b.value
  }

  function SumPoints(signals: seq<Signal>): nat {
    if signals == [] then 0 else signals[0].points + SumPoints(signals[1..])
  }

  /** Hints are capped below the threshold for a definite match. */
  function Finalise(candidate: Candidate, signals: seq<Signal>, isIdentityKey: bool): MatchResult {
    var raw := SumPoints(signals);
    var ceiling := if isIdentityKey then 100 else DEFINITE - 1;
    var score := if raw < ceiling then raw else ceiling;
    MatchResult(candidate, score, ConfidenceFor(score), signals)
  }

  function Similarity(a: Person, b: Person): real {
    NameSimilarity(NormaliseName(a.firstName, a.lastName), NormaliseName(b.firstName, b.lastName))
  }

  function EmailHint(a: Person, b: Person): seq<Signal> {
    if BothEqual(NormaliseEmail(a.email), NormaliseEmail(b.email)) then [Signal(Email, 55)] else []
  }

  function NameHint(similarity: real): seq<Signal> {
    if similarity == 1.0 then [Signal(NameExact, 25)] else if similarity >= 0.85 then [Signal(NameClose, 15)] else []
  }

  function CityHint(a: Person, b: Person): seq<Signal> {
    if BothEqual(NormaliseCity(a.city), NormaliseCity(b.city)) then [Signal(City, 15)] else []
  }

  function PartialHint(m: Option<string>, n: Option<string>): seq<Signal> {
    if m.Some? && n.Some? && m != n && Last(m.value, 4) == Last(n.value, 4) then [Signal(MobilePartial, 20)] else []
  }

  function Hints(a: Person, b: Person): seq<Signal> {
    var similarity := Similarity(a, b);
    EmailHint(a, b) + NameHint(similarity)
    + if similarity >= 0.85 then CityHint(a, b) + PartialHint(NormaliseMobile(a.mobile), NormaliseMobile(b.mobile)) else []
  }

  function Score(input: Person, candidate: Candidate): MatchResult {
    var other := candidate.person;
    if BothEqual(NormalisePan(input.pan), NormalisePan(other.pan)) then Finalise(candidate, [Signal(Pan, 100)], true)
    else if BothEqual(NormaliseMobile(input.mobile), NormaliseMobile(other.mobile)) then
      Finalise(candidate, [Signal(Mobile, 95)], true)
    else Finalise(candidate, Hints(input, other), false)
  }

  /** The scorer as the source writes it, pushing one signal at a time. */
  method ScoreMatch(input: Person, candidate: Candidate) returns (result: MatchResult)
    ensures result == Score(input, candidate)
  {
    hide NormalisePan, NormaliseMobile, NormaliseEmail, NormaliseName, NormaliseCity, NameSimilarity, Finalise, Last;
    var signals: seq<Signal> := [];
    var other := candidate.person;
    var inputPan := NormalisePan(input.pan);
    var candidatePan := NormalisePan(other.pan);
    if inputPan.Some? && candidatePan.Some? && inputPan == candidatePan {
      signals := signals + [Signal(Pan, 100)];
      assert signals == [Signal(Pan, 100)];
      return Finalise(candidate, signals, true);
    }
    var inputMobile := NormaliseMobile(input.mobile);
    var candidateMobile := NormaliseMobile(other.mobile);
    if inputMobile.Some? && candidateMobile.Some? && inputMobile == candidateMobile {
      signals := signals + [Signal(Mobile, 95)];
      assert signals == [Signal(Mobile, 95)];
      return Finalise(candidate, signals, true);
    }
    var inputEmail := NormaliseEmail(input.email);
    var candidateEmail := NormaliseEmail(other.email);
    if inputEmail.Some? && candidateEmail.Some? && inputEmail == candidateEmail {
      signals := signals + [Signal(Email, 55)];
    }
    assert signals == EmailHint(input, other);
    var inputName := NormaliseName(input.firstName, input.lastName);
    var candidateName := NormaliseName(other.firstName, other.lastName);
    var similarity := NameSimilarity(inputName, candidateName);
    if similarity == 1.0 {
      signals := signals + [Signal(NameExact, 25)];
    } else if similarity >= 0.85 {
      signals := signals + [Signal(NameClose, 15)];
    }
    ghost var named := EmailHint(input, other) + NameHint(similarity);
    assert signals == named;
    if similarity >= 0.85 {
      var inputCity := NormaliseCity(input.city);
      var candidateCity := NormaliseCity(other.city);
      if inputCity.Some? && candidateCity.Some? && inputCity == candidateCity {
        signals := signals + [Signal(City, 15)];
      }
      assert signals == named + CityHint(input, other);
      if inputMobile.Some? && candidateMobile.Some? && inputMobile != candidateMobile
         && Last(inputMobile.value, 4) == Last(candidateMobile.value, 4) {
        signals := signals + [Signal(MobilePartial, 20)];
      }
      assert signals == named + (CityHint(input, other) + PartialHint(inputMobile, candidateMobile));
    }
    assert signals == Hints(input, other);
    result := Finalise(candidate, signals, false);
  }

  function Scores(input: Person, candidates: seq<Candidate>): (results: seq<MatchResult>)
    ensures |results| == |candidates|
  {
    seq(|candidates|, i requires 0 <= i < |candidates| => Score(input, candidates[i]))
  }

  predicate BetterFirst(a: MatchResult, b: MatchResult) {
    a.score >= b.score
  }

  predicate WorthAttention(r: MatchResult) {
    !r.confidence.NoMatch?
  }

  function FindMatches(input: Person, candidates: seq<Candidate>, limit: nat): seq<MatchResult> {
    var sorted := Sort(Select(Scores(input, candidates), WorthAttention), BetterFirst);
    if |sorted| <= limit then sorted else sorted[..limit]
  }

  function SuggestDecision(best: Option<MatchResult>): Decision {
    if best.None? then Create
    else match best.value.confidence
      case Definite => Skip
      case Probable => Review
      case _ => Create
  }

  function Best(results: seq<MatchResult>): Option<MatchResult> {
    if results == [] then None else Some(results[0])
  }

  // ---------------------------------------------------------------------------
  // Similarity
  // ---------------------------------------------------------------------------

  /** Between 0 and 1, and 1 for equal, non-empty names only. */
  lemma SimilarityRange(a: string, b: string)
    ensures 0.0 <= NameSimilarity(a, b) <= 1.0
    ensures NameSimilarity(a, b) == 1.0 <==> a == b && a != ""
  {
    EditDistance.DistanceZeroIffEqual(a, b);
    EditDistance.DistanceAtMostLonger(a, b);
  }

  lemma SimilaritySymmetric(a: string, b: string)
    ensures NameSimilarity(a, b) == NameSimilarity(b, a)
  {
    EditDistance.DistanceSymmetric(a, b);
  }

  /** Which names are close: at most three edits in twenty characters, and neither too long. */
  lemma CloseNames(a: string, b: string)
    ensures NameSimilarity(a, b) >= 0.85 <==>
            a != "" && b != "" && (a == b || (|a| <= 80 && |b| <= 80
              && 20 * EditDistance.Distance(a, b) <= 3 * (if |a| > |b| then |a| else |b|)))
  {
    if a != "" && b != "" {
      RatioThreshold(EditDistance.Distance(a, b), if |a| > |b| then |a| else |b|);
    }
  }

  lemma RatioThreshold(d: nat, longest: nat)
    requires longest > 0
    ensures 1.0 - d as real / longest as real >= 0.85 <==> 20 * d <= 3 * longest
  {
    var n := longest as real;
    var q := d as real / n;
    assert q * n == d as real;
    SignOfProduct(0.15 - q, n);
    SignOfProduct(q - 0.15, n);
    assert (0.15 - q) * n == 0.15 * n - d as real && (q - 0.15) * n == d as real - 0.15 * n;
  }

  lemma SignOfProduct(a: real, n: real)
    requires n > 0.0
    ensures (a >= 0.0 ==> a * n >= 0.0) && (a > 0.0 ==> a * n > 0.0)
  {
  }

  // ---------------------------------------------------------------------------
  // Only identity keys decide
  // ---------------------------------------------------------------------------

  predicate SameIdentity(a: Person, b: Person) {
    || BothEqual(NormalisePan(a.pan), NormalisePan(b.pan))
    || BothEqual(NormaliseMobile(a.mobile), NormaliseMobile(b.mobile))
  }

  lemma SumOfOne(s: Signal)
    ensures SumPoints([s]) == s.points
  {
    assert [s][1..] == [];
  }

  /** A score reaches the threshold for a definite match on a shared PAN or mobile, and on nothing else. */
  lemma DefiniteIffSameIdentity(input: Person, candidate: Candidate)
    ensures Score(input, candidate).confidence == Definite <==> SameIdentity(input, candidate.person)
    ensures Score(input, candidate).score <= 100
  {
    SumOfOne(Signal(Pan, 100));
    SumOfOne(Signal(Mobile, 95));
  }

  /** Scoring does not depend on which of the two records is the incoming one. */
  lemma ScoreSymmetric(a: Candidate, b: Candidate)
    ensures Score(a.person, b).score == Score(b.person, a).score
    ensures Score(a.person, b).signals == Score(b.person, a).signals
  {
    var p, q := a.person, b.person;
    hide NormalisePan, NormaliseMobile, NormaliseEmail, NormaliseName, NormaliseCity, NameSimilarity, Last;
    SimilaritySymmetric(NormaliseName(p.firstName, p.lastName), NormaliseName(q.firstName, q.lastName));
  }

  lemma BetterFirstIsPreorder()
    ensures TotalPreorder(BetterFirst)
  {
  }

  /** What the head of the result is the score of. */
  lemma BestIsScore(input: Person, candidates: seq<Candidate>, limit: nat)
    requires limit > 0
    ensures var best := Best(FindMatches(input, candidates, limit));
            best.Some? ==> WorthAttention(best.value) && exists c <- candidates :: Score(input, c) == best.value
  {
    hide Score;
    var scores := Scores(input, candidates);
    var kept := Select(scores, WorthAttention);
    SelectElements(scores, WorthAttention);
    SortPermutes(kept, BetterFirst);
    var best := Best(FindMatches(input, candidates, limit));
    if best.Some? {
      assert best.value in Sort(kept, BetterFirst);
      var i :| 0 <= i < |scores| && scores[i] == best.value;
      assert candidates[i] in candidates;
    }
  }

  /** The head of the result is a best match: no candidate worth attention scores higher, and there is
      no head only if no candidate is worth attention. */
  lemma BestIsBest(input: Person, candidates: seq<Candidate>, limit: nat)
    requires limit > 0
    ensures var best := Best(FindMatches(input, candidates, limit));
            && (best.Some? ==> WorthAttention(best.value) && exists c <- candidates :: Score(input, c) == best.value)
            && forall c <- candidates :: WorthAttention(Score(input, c)) ==> best.Some? && best.value.score >= Score(input, c).score
  {
    BestIsScore(input, candidates, limit);
    var scores := Scores(input, candidates);
    var kept := Select(scores, WorthAttention);
    var sorted := Sort(kept, BetterFirst);
    SelectElements(scores, WorthAttention);
    SortPermutes(kept, BetterFirst);
    BetterFirstIsPreorder();
    SortSorts(kept, BetterFirst);
    hide Score, Select, Sort, BetterFirst, WorthAttention;
    var best := Best(FindMatches(input, candidates, limit));
    forall c | c in candidates && WorthAttention(Score(input, c))
      ensures best.Some? && best.value.score >= Score(input, c).score
    {
      var i :| 0 <= i < |candidates| && candidates[i] == c;
      assert scores[i] in scores;
      var j :| 0 <= j < |sorted| && sorted[j] == scores[i];
    }
  }

  /** The importer skips a row exactly when some candidate has the same PAN or mobile, however many
      weaker signals the others add. */
  lemma SkipIffSameIdentity(input: Person, candidates: seq<Candidate>, limit: nat)
    requires limit > 0
    ensures SuggestDecision(Best(FindMatches(input, candidates, limit))) == Skip <==>
            exists c <- candidates :: SameIdentity(input, c.person)
  {
    BestIsBest(input, candidates, limit);
    forall c | c in candidates
      ensures Score(input, c).confidence == Definite <==> SameIdentity(input, c.person)
    {
      DefiniteIffSameIdentity(input, c);
    }
    var best := Best(FindMatches(input, candidates, limit));
    if c :| c in candidates && SameIdentity(input, c.person) {
      assert Score(input, c).score >= DEFINITE;
      var d :| d in candidates && Score(input, d) == best.value;
    }
  }
}

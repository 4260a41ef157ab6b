/** The judgements behind `recommendOwners` of `packages/contracts/src/allocation.ts` in numbers: whom a
    lead may go to, how well each fits, and in what order they are shown. */
module AllocationAdvice {
  import opened Text
  import opened Sorting
  import opened Allocation

  // ---------------------------------------------------------------------------
  // Who may have the lead
  // ---------------------------------------------------------------------------

  /** Room for one more: a capacity of sixty where none is given. */
  predicate HasRoom(c: Candidate) {
    c.openLeads < if c.capacity.Some? then c.capacity.value else 60
  }

  /** Clear of every obstacle: not away, not full and, for a strong lead, with a behaviour score of 55 or more. */
  predicate Clear(c: Candidate, strong: bool) {
    c.isAvailable != Some(false) && HasRoom(c) && (strong ==> c.behaviourScore >= 55.0)
  }

  /** Held back by the behaviour score alone. */
  predicate HeldBack(c: Candidate, strong: bool) {
    c.isAvailable != Some(false) && HasRoom(c) && strong && c.behaviourScore < 55.0
  }

  lemma VerdictIff(c: Candidate, strong: bool)
    ensures Verdict(c, strong) == None <==> Clear(c, strong)
    ensures Verdict(c, strong) == Some(NotAvailable) <==> c.isAvailable == Some(false)
    ensures Verdict(c, strong) == Some(AtCapacity) <==> c.isAvailable != Some(false) && !HasRoom(c)
    ensures Verdict(c, strong) == Some(BelowBehaviourBar) <==> HeldBack(c, strong)
  {
  }

  /** Ranked are exactly the clear candidates; but if nobody is clear, one of those held back comes back, with the best
      behaviour score among them and, of those as good, a name no later. */
  lemma EligibleIff(candidates: seq<Candidate>, strong: bool, leName: (string, string) -> bool)
    requires TotalPreorder(leName)
    ensures var eligible := Eligible(candidates, strong, leName);
            if exists c <- candidates :: Clear(c, strong) then
              forall c :: c in eligible <==> c in candidates && Clear(c, strong)
            else if exists c <- candidates :: HeldBack(c, strong) then
              && |eligible| == 1 && eligible[0] in candidates && HeldBack(eligible[0], strong)
              && forall c <- candidates :: HeldBack(c, strong) ==>
                   c.behaviourScore < eligible[0].behaviourScore
                   || (c.behaviourScore == eligible[0].behaviourScore && leName(eligible[0].fullName, c.fullName))
            else eligible == []
  {
    hide Verdict, Clear, HeldBack, Reinstated;
    forall c | c in candidates
      ensures Verdict(c, strong) == None <==> Clear(c, strong)
      ensures Verdict(c, strong) == Some(BelowBehaviourBar) <==> HeldBack(c, strong)
    {
      VerdictIff(c, strong);
    }
    SelectElements(candidates, HasVerdict(strong, None));
    var clear := Select(candidates, HasVerdict(strong, None));
    if clear == [] {
      ComesBack(candidates, strong, leName);
    } else {
      assert clear[0] in clear && Clear(clear[0], strong);
      NobodyComesBack(candidates, strong, leName);
    }
  }

  lemma NobodyComesBack(candidates: seq<Candidate>, strong: bool, leName: (string, string) -> bool)
    requires Select(candidates, HasVerdict(strong, None)) != []
    ensures Reinstated(candidates, strong, leName) == []
  {
  }

  lemma ComesBack(candidates: seq<Candidate>, strong: bool, leName: (string, string) -> bool)
    requires TotalPreorder(leName) && Select(candidates, HasVerdict(strong, None)) == []
    ensures var back := Reinstated(candidates, strong, leName);
            if exists c <- candidates :: Verdict(c, strong) == Some(BelowBehaviourBar) then
              && |back| == 1 && back[0] in candidates && Verdict(back[0], strong) == Some(BelowBehaviourBar)
              && forall c <- candidates :: Verdict(c, strong) == Some(BelowBehaviourBar) ==>
                   c.behaviourScore < back[0].behaviourScore
                   || (c.behaviourScore == back[0].behaviourScore && leName(back[0].fullName, c.fullName))
            else back == []
  {
    hide Verdict, Select, Sort;
    var gated := Select(candidates, HasVerdict(strong, Some(BelowBehaviourBar)));
    SelectElements(candidates, HasVerdict(strong, Some(BelowBehaviourBar)));
    DisciplineOrderIsPreorder(leName);
    SortPermutes(gated, DisciplineOrder(leName));
    SortSorts(gated, DisciplineOrder(leName));
    var sorted := Sort(gated, DisciplineOrder(leName));
    if gated != [] {
      assert sorted[0] in sorted;
      forall c | c in candidates && Verdict(c, strong) == Some(BelowBehaviourBar) ensures DisciplineOrder(leName)(sorted[0], c) {
        assert c in sorted;
        var i :| 0 <= i < |sorted| && sorted[i] == c;
        if i == 0 { assert DisciplineOrder(leName)(c, c); }
      }
    }
  }

  /** Everybody passed over is passed over for a reason of their own. */
  lemma {:induction false} ExclusionsSay(candidates: seq<Candidate>, strong: bool)
    ensures forall e <- Exclusions(candidates, strong) ::
              exists c <- candidates :: c.userId == e.userId && Verdict(c, strong) == Some(e.reason)
  {
    hide Verdict;
    if candidates != [] {
      var earlier, last := candidates[..|candidates| - 1], candidates[|candidates| - 1];
      ExclusionsSay(earlier, strong);
      assert candidates == earlier + [last];
      assert last in candidates;
    }
  }

  lemma {:induction false} WithoutKeepsRest(excluded: seq<Exclusion>, userId: string)
    ensures forall e <- Without(excluded, userId) :: e in excluded
    ensures forall e <- excluded :: e.userId != userId ==> e in Without(excluded, userId)
  {
    if excluded != [] {
      assert excluded == [excluded[0]] + excluded[1..];
      if excluded[0].userId != userId {
        WithoutKeepsRest(excluded[1..], userId);
      }
    }
  }

  /** The list of those passed over names nobody without cause. */
  lemma PassedOverForCause(candidates: seq<Candidate>, strong: bool, leName: (string, string) -> bool)
    ensures forall e <- Excluded(candidates, strong, leName) ::
              exists c <- candidates :: c.userId == e.userId && Verdict(c, strong) == Some(e.reason)
  {
    hide Verdict, Reinstated, Exclusions, Without;
    ExclusionsSay(candidates, strong);
    var back := Reinstated(candidates, strong, leName);
    if back != [] {
      WithoutKeepsRest(Exclusions(candidates, strong), back[0].userId);
    }
  }

  // ---------------------------------------------------------------------------
  // How well each fits
  // ---------------------------------------------------------------------------

  /** How far a rating counts: in full with much evidence, six tenths of the way from fifty with some, three with little. */
  lemma TrustedRatingIs(c: Candidate)
    ensures 10.0 * (TrustedRating(c) - 50.0) == (c.overall - 50.0) * match c.confidence case High => 10.0 case Medium => 6.0 case Low => 3.0
  {
  }

  /** The free share of a capacity of at least one; nobody has any room at a capacity of zero or less. */
  lemma HeadroomIs(c: Candidate)
    ensures var capacity := if c.capacity.Some? then c.capacity.value else 60;
            if capacity <= 0 || c.openLeads >= capacity then Headroom(c) == 0.0
            else Headroom(c) * capacity as real == (capacity - c.openLeads) as real
  {
    var capacity := CapacityOf(c);
    if capacity > 0 {
      var full := c.openLeads as real / capacity as real;
      assert full * capacity as real == c.openLeads as real;
      if c.openLeads >= capacity {
        AtLeastOne(c.openLeads as real, capacity as real);
      } else {
        AtMostOne(c.openLeads as real, capacity as real);
        assert (1.0 - full) * capacity as real == capacity as real - full * capacity as real;
      }
    }
  }

  lemma AtLeastOne(a: real, n: real)
    requires a >= n > 0.0
    ensures a / n >= 1.0
  {
  }

  lemma AtMostOne(a: real, n: real)
    requires 0.0 <= a <= n && n > 0.0
    ensures 0.0 <= a / n <= 1.0
  {
  }

  /** The fit is, to the nearest whole number, 65 parts rating and 35 parts room on a strong lead, 40 and 60 otherwise. */
  lemma FitIs(c: Candidate, strong: bool)
    ensures var rating, room := TrustedRating(c), 100.0 * Headroom(c);
            var exact := if strong then (65.0 * rating + 35.0 * room) / 100.0 else (40.0 * rating + 60.0 * room) / 100.0;
            FitScore(c, strong) as real - 0.5 <= exact < FitScore(c, strong) as real + 0.5
  {
    hide TrustedRating, Headroom;
    var rating, room := TrustedRating(c), Headroom(c);
    if strong {
      assert rating * 0.65 + room * 100.0 * (1.0 - 0.65) == (65.0 * rating + 35.0 * (100.0 * room)) / 100.0;
    } else {
      assert rating * 0.4 + room * 100.0 * (1.0 - 0.4) == (40.0 * rating + 60.0 * (100.0 * room)) / 100.0;
    }
  }

  // ---------------------------------------------------------------------------
  // In what order
  // ---------------------------------------------------------------------------

  /** By fit, the better first, and by name where the fit is the same; each eligible candidate with the own fit. */
  lemma ByFitIs(candidates: seq<Candidate>, strong: bool, leName: (string, string) -> bool)
    requires TotalPreorder(leName)
    ensures var byFit := ByFit(candidates, strong, leName);
            && |byFit| == |Eligible(candidates, strong, leName)|
            && (forall i, j :: 0 <= i < j < |byFit| ==>
                  byFit[i].fitScore > byFit[j].fitScore
                  || (byFit[i].fitScore == byFit[j].fitScore && leName(byFit[i].candidate.fullName, byFit[j].candidate.fullName)))
            && (forall r <- byFit :: r == Ranked(r.candidate, FitScore(r.candidate, strong), false))
            && forall c :: c in Eligible(candidates, strong, leName) <==> exists r <- byFit :: r.candidate == c
  {
    hide Eligible, FitScore;
    var eligible := Eligible(candidates, strong, leName);
    var scored := Scored(eligible, strong);
    FitOrderIsPreorder(leName);
    SortSorts(scored, FitOrder(leName));
    SortPermutes(scored, FitOrder(leName));
    var byFit := ByFit(candidates, strong, leName);
    forall i, j | 0 <= i < j < |byFit|
      ensures byFit[i].fitScore > byFit[j].fitScore
           || (byFit[i].fitScore == byFit[j].fitScore && leName(byFit[i].candidate.fullName, byFit[j].candidate.fullName))
    {
      assert FitOrder(leName)(byFit[i], byFit[j]);
    }
    forall c ensures c in eligible <==> exists r <- byFit :: r.candidate == c {
      if c in eligible {
        var i :| 0 <= i < |eligible| && eligible[i] == c;
        assert scored[i] in scored && scored[i].candidate == c;
      }
    }
  }

  /** Nobody is promoted on an ordinary lead, off the fourth turn, or when no candidate rated under 55 is eligible. */
  lemma NoPromotion(candidates: seq<Candidate>, strong: bool, cursor: int, leName: (string, string) -> bool)
    requires TotalPreorder(leName)
    requires !strong || cursor % 4 != 0 || forall c <- Eligible(candidates, strong, leName) :: c.overall >= 55.0
    ensures Ranking(candidates, strong, cursor, leName) == ByFit(candidates, strong, leName)
  {
    hide Eligible, FitScore, ByFit;
    OrderedByFitButOne(candidates, strong, cursor, leName);
    ByFitIs(candidates, strong, leName);
    var ranking, byFit := Ranking(candidates, strong, cursor, leName), ByFit(candidates, strong, leName);
    assert forall k :: 0 <= k < |byFit| ==> byFit[k] in byFit;
  }
}

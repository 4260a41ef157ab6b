/** Smart allocation: `recommendOwners` of `packages/contracts/src/allocation.ts`. Ratings and fits are
    real numbers; rounding to an integer is the source's `Math.round`. `leName` is the collation order. */
module Allocation {
  import opened Text
  import opened Sorting

  const STRONG_LEAD_SCORE: real := 70.0
  const DEVELOPING_RATING_CEILING: real := 55.0
  const MIN_BEHAVIOUR_FOR_STRONG_LEADS: real := 55.0
  const DEFAULT_CAPACITY: int := 60
  /** One strong lead in four: the rounded inverse of a development share of 0.25. */
  const EVERY_NTH: int := 4

  datatype RatingConfidence = High | Medium | Low

  datatype Candidate = Candidate(
    userId: string, fullName: string, overall: real, behaviourScore: real, confidence: RatingConfidence,
    openLeads: nat, capacity: Option<int>, isAvailable: Option<bool>)

  datatype Reason = NotAvailable | AtCapacity | BelowBehaviourBar

  datatype Exclusion = Exclusion(userId: string, reason: Reason)

  datatype Ranked = Ranked(candidate: Candidate, fitScore: int, isDevelopmentPick: bool)

  function Round(x: real): int {
    (x + 0.5).Floor
  }

  function TrustedRating(c: Candidate): real {
    var weight := match c.confidence case High => 1.0 case Medium => 0.6 case Low => 0.3;
    50.0 + (c.overall - 50.0) * weight
  }

  function CapacityOf(c: Candidate): int {
    if c.capacity.Some? then c.capacity.value else DEFAULT_CAPACITY
  }

  /** The share of the capacity that is still free, between 0 and 1. */
  function Headroom(c: Candidate): real {
    var capacity := CapacityOf(c);
    if capacity <= 0 then 0.0
    else
      var room := 1.0 - c.openLeads as real / capacity as real;
      if room < 0.0 then 0.0 else if room > 1.0 then 1.0 else room
  }

  function FitScore(c: Candidate, strong: bool): int {
    var weight := if strong then 0.65 else 0.4;
    Round(TrustedRating(c) * weight + Headroom(c) * 100.0 * (1.0 - weight))
  }

  /** Why a candidate is passed over at first, if at all. */
  function Verdict(c: Candidate, strong: bool): Option<Reason> {
    if c.isAvailable == Some(false) then Some(NotAvailable)
    else if c.openLeads >= CapacityOf(c) then Some(AtCapacity)
    else if strong && c.behaviourScore < MIN_BEHAVIOUR_FOR_STRONG_LEADS then Some(BelowBehaviourBar)
    else None
  }

  function HasVerdict(strong: bool, verdict: Option<Reason>): Candidate -> bool {
    (c: Candidate) => Verdict(c, strong) == verdict
  }

  function DisciplineOrder(leName: (string, string) -> bool): (Candidate, Candidate) -> bool {
    (a: Candidate, b: Candidate) =>
      a.behaviourScore > b.behaviourScore || (a.behaviourScore == b.behaviourScore && leName(a.fullName, b.fullName))
  }

  function FitOrder(leName: (string, string) -> bool): (Ranked, Ranked) -> bool {
    (a: Ranked, b: Ranked) => a.fitScore > b.fitScore || (a.fitScore == b.fitScore && leName(a.candidate.fullName, b.candidate.fullName))
  }

  /** The most disciplined of those the behaviour gate caught, when it left nobody else. */
  function Reinstated(candidates: seq<Candidate>, strong: bool, leName: (string, string) -> bool): seq<Candidate> {
    var gated := Sort(Select(candidates, HasVerdict(strong, Some(BelowBehaviourBar))), DisciplineOrder(leName));
    if Select(candidates, HasVerdict(strong, None)) == [] && gated != [] then [gated[0]] else []
  }

  function Eligible(candidates: seq<Candidate>, strong: bool, leName: (string, string) -> bool): seq<Candidate> {
    Select(candidates, HasVerdict(strong, None)) + Reinstated(candidates, strong, leName)
  }

  function Exclusions(candidates: seq<Candidate>, strong: bool): seq<Exclusion> {
    if candidates == [] then []
    else
      var last := candidates[|candidates| - 1];
      Exclusions(candidates[..|candidates| - 1], strong)
      + if Verdict(last, strong).Some? then [Exclusion(last.userId, Verdict(last, strong).value)] else []
  }

  function Without(excluded: seq<Exclusion>, userId: string): seq<Exclusion> {
    if excluded == [] then [] else if excluded[0].userId == userId then excluded[1..] else [excluded[0]] + Without(excluded[1..], userId)
  }

  function Excluded(candidates: seq<Candidate>, strong: bool, leName: (string, string) -> bool): seq<Exclusion> {
    var back := Reinstated(candidates, strong, leName);
    if back == [] then Exclusions(candidates, strong) else Without(Exclusions(candidates, strong), back[0].userId)
  }

  function Scored(candidates: seq<Candidate>, strong: bool): (scored: seq<Ranked>)
    ensures |scored| == |candidates|
  {
    seq(|candidates|, i requires 0 <= i < |candidates| => Ranked(candidates[i], FitScore(candidates[i], strong), false))
  }

  function ByFit(candidates: seq<Candidate>, strong: bool, leName: (string, string) -> bool): seq<Ranked> {
    Sort(Scored(Eligible(candidates, strong, leName), strong), FitOrder(leName))
  }

  predicate Developing(r: Ranked) {
    r.candidate.overall < DEVELOPING_RATING_CEILING
  }

  function FirstDeveloping(ranked: seq<Ranked>): nat {
    if ranked == [] || Developing(ranked[0]) then 0 else 1 + FirstDeveloping(ranked[1..])
  }

  /** Take one entry out and put it in front, marked. */
  function Promote(ranked: seq<Ranked>, index: nat): seq<Ranked>
    requires index < |ranked|
  {
    [ranked[index].(isDevelopmentPick := true)] + ranked[..index] + ranked[index + 1..]
  }

  predicate DueForDevelopment(strong: bool, cursor: int, ranked: seq<Ranked>) {
    strong && |ranked| > 1 && cursor % EVERY_NTH == 0
  }

  /** The whole ranking, before it is cut to length. */
  function Ranking(candidates: seq<Candidate>, strong: bool, cursor: int, leName: (string, string) -> bool): seq<Ranked> {
    var ranked := ByFit(candidates, strong, leName);
    var index := FirstDeveloping(ranked);
    if DueForDevelopment(strong, cursor, ranked) && 0 < index < |ranked| then Promote(ranked, index) else ranked
  }

  /** The loop over the candidates: who is eligible, who the behaviour gate caught, who is passed over. */
  method Gate(candidates: seq<Candidate>, strong: bool)
    returns (eligible: seq<Candidate>, gated: seq<Candidate>, excluded: seq<Exclusion>)
    ensures eligible == Select(candidates, HasVerdict(strong, None))
    ensures gated == Select(candidates, HasVerdict(strong, Some(BelowBehaviourBar)))
    ensures excluded == Exclusions(candidates, strong)
  {
    excluded, eligible, gated := [], [], [];
    hide Verdict;
    for i := 0 to |candidates|
      invariant eligible == Select(candidates[..i], HasVerdict(strong, None))
      invariant gated == Select(candidates[..i], HasVerdict(strong, Some(BelowBehaviourBar)))
      invariant excluded == Exclusions(candidates[..i], strong)
    {
      var candidate := candidates[i];
      assert candidates[..i + 1] == candidates[..i] + [candidate] && candidates[..i + 1][..i] == candidates[..i];
      SelectAppend(candidates[..i], [candidate], HasVerdict(strong, None));
      SelectAppend(candidates[..i], [candidate], HasVerdict(strong, Some(BelowBehaviourBar)));
      VerdictByBranches(candidate, strong);
      if candidate.isAvailable == Some(false) {
        excluded := excluded + [Exclusion(candidate.userId, NotAvailable)];
      } else if candidate.openLeads >= CapacityOf(candidate) {
        excluded := excluded + [Exclusion(candidate.userId, AtCapacity)];
      } else if strong && candidate.behaviourScore < MIN_BEHAVIOUR_FOR_STRONG_LEADS {
        gated := gated + [candidate];
        excluded := excluded + [Exclusion(candidate.userId, BelowBehaviourBar)];
      } else {
        eligible := eligible + [candidate];
      }
    }
    assert candidates[..|candidates|] == candidates;
  }

  /** The development floor: one entry is spliced out and put in front. */
  method ApplyFloor(ranked: seq<Ranked>, strong: bool, cursor: int) returns (result: seq<Ranked>, applied: bool)
    requires forall r <- ranked :: !r.isDevelopmentPick
    ensures var index := FirstDeveloping(ranked);
            result == if DueForDevelopment(strong, cursor, ranked) && 0 < index < |ranked| then Promote(ranked, index) else ranked
    ensures applied <==> result != ranked
  {
    hide Promote, FirstDeveloping;
    result, applied := ranked, false;
    if strong && |ranked| > 1 && cursor % EVERY_NTH == 0 {
      var index := FirstDeveloping(ranked);
      if 0 < index < |ranked| {
        var pick := ranked[index];
        result := ranked[..index] + ranked[index + 1..];
        result := [pick.(isDevelopmentPick := true)] + result;
        applied := true;
        PromoteSteps(ranked, index);
      }
    }
  }

  method RecommendOwners(leadScore: real, candidates: seq<Candidate>, developmentCursor: int, maxRecommendations: nat,
                         leName: (string, string) -> bool)
    returns (recommendations: seq<Ranked>, excluded: seq<Exclusion>, floorApplied: bool)
    requires TotalPreorder(leName)
    ensures var strong := leadScore >= 70.0;
            var ranking := Ranking(candidates, strong, developmentCursor, leName);
            && recommendations == (if |ranking| <= maxRecommendations then ranking else ranking[..maxRecommendations])
            && excluded == Excluded(candidates, strong, leName)
            && (floorApplied <==> ranking != ByFit(candidates, strong, leName))
  {
    hide Select, Sort, Exclusions, FitScore, FitOrder, DisciplineOrder, Without;
    var strong := leadScore >= STRONG_LEAD_SCORE;
    var eligible: seq<Candidate>, gated: seq<Candidate>;
    eligible, gated, excluded := Gate(candidates, strong);
    SortPermutes(gated, DisciplineOrder(leName));
    if |eligible| == 0 && |gated| > 0 {
      var best := Sort(gated, DisciplineOrder(leName))[0];
      eligible := eligible + [best];
      excluded := Without(excluded, best.userId);
    }
    assert eligible == Eligible(candidates, strong, leName) && excluded == Excluded(candidates, strong, leName);
    hide Eligible, Excluded, Reinstated, HasVerdict;

    var scored := Sort(Scored(eligible, strong), FitOrder(leName));
    NoPicksByFit(candidates, strong, leName);
    scored, floorApplied := ApplyFloor(scored, strong, developmentCursor);
    recommendations := if |scored| <= maxRecommendations then scored else scored[..maxRecommendations];
  }

  lemma PromoteSteps(ranked: seq<Ranked>, index: nat)
    requires index < |ranked|
    ensures [ranked[index].(isDevelopmentPick := true)] + (ranked[..index] + ranked[index + 1..]) == Promote(ranked, index)
    ensures !ranked[0].isDevelopmentPick ==> Promote(ranked, index) != ranked
  {
    assert Promote(ranked, index)[0].isDevelopmentPick;
  }

  lemma VerdictByBranches(c: Candidate, strong: bool)
    ensures Verdict(c, strong) == if c.isAvailable == Some(false) then Some(NotAvailable)
                                  else if c.openLeads >= CapacityOf(c) then Some(AtCapacity)
                                  else if strong && c.behaviourScore < MIN_BEHAVIOUR_FOR_STRONG_LEADS then Some(BelowBehaviourBar)
                                  else None
  {
  }

  lemma NoPicksByFit(candidates: seq<Candidate>, strong: bool, leName: (string, string) -> bool)
    ensures forall r <- ByFit(candidates, strong, leName) :: !r.isDevelopmentPick
  {
    SortPermutes(Scored(Eligible(candidates, strong, leName), strong), FitOrder(leName));
  }

  // ---------------------------------------------------------------------------
  // Nobody is dropped
  // ---------------------------------------------------------------------------

  function Ids(candidates: seq<Candidate>): (ids: seq<string>)
    ensures |ids| == |candidates|
  {
    seq(|candidates|, i requires 0 <= i < |candidates| => candidates[i].userId)
  }

  function RankedIds(ranked: seq<Ranked>): (ids: seq<string>)
    ensures |ids| == |ranked|
  {
    seq(|ranked|, i requires 0 <= i < |ranked| => ranked[i].candidate.userId)
  }

  function ExcludedIds(excluded: seq<Exclusion>): (ids: seq<string>)
    ensures |ids| == |excluded|
  {
    seq(|excluded|, i requires 0 <= i < |excluded| => excluded[i].userId)
  }

  lemma {:induction false} GatePartitions(candidates: seq<Candidate>, strong: bool)
    ensures multiset(Ids(Select(candidates, HasVerdict(strong, None)))) + multiset(ExcludedIds(Exclusions(candidates, strong)))
         == multiset(Ids(candidates))
    ensures forall c <- candidates :: Verdict(c, strong).Some? ==> Exclusion(c.userId, Verdict(c, strong).value) in Exclusions(candidates, strong)
  {
    if candidates != [] {
      var before, last := candidates[..|candidates| - 1], candidates[|candidates| - 1];
      GatePartitions(before, strong);
      assert candidates == before + [last];
      GateSnoc(before, last, strong);
      hide Verdict, Select, Exclusions, Ids, ExcludedIds;
      assert forall c <- candidates :: c in before || c == last;
    }
  }

  /** One more candidate is either kept or excluded, and nobody else moves. */
  lemma GateSnoc(before: seq<Candidate>, last: Candidate, strong: bool)
    ensures Ids(before + [last]) == Ids(before) + [last.userId]
    ensures var kept, out := Select(before, HasVerdict(strong, None)), Exclusions(before, strong);
            var keptAfter, outAfter := Select(before + [last], HasVerdict(strong, None)), Exclusions(before + [last], strong);
            if Verdict(last, strong).Some? then
              && Ids(keptAfter) == Ids(kept) && outAfter == out + [Exclusion(last.userId, Verdict(last, strong).value)]
              && ExcludedIds(outAfter) == ExcludedIds(out) + [last.userId]
            else
              Ids(keptAfter) == Ids(kept) + [last.userId] && outAfter == out
  {
    hide Verdict;
    SelectAppend(before, [last], HasVerdict(strong, None));
    assert Select([last], HasVerdict(strong, None)) == if Verdict(last, strong).None? then [last] else [] by {
      SelectCons(last, [], HasVerdict(strong, None));
      assert [last] + [] == [last];
    }
    hide Select;
    assert (before + [last])[..|before|] == before;
    var kept, out := Select(before, HasVerdict(strong, None)), Exclusions(before, strong);
    if Verdict(last, strong).Some? {
      assert Select(before + [last], HasVerdict(strong, None)) == kept;
      assert Exclusions(before + [last], strong) == out + [Exclusion(last.userId, Verdict(last, strong).value)];
    } else {
      assert Select(before + [last], HasVerdict(strong, None)) == kept + [last];
      assert Exclusions(before + [last], strong) == out;
    }
  }

  lemma {:induction false} WithoutRemovesOne(excluded: seq<Exclusion>, userId: string)
    requires userId in ExcludedIds(excluded)
    ensures multiset(ExcludedIds(Without(excluded, userId))) == multiset(ExcludedIds(excluded)) - multiset{userId}
  {
    assert ExcludedIds(excluded) == [excluded[0].userId] + ExcludedIds(excluded[1..]);
    if excluded[0].userId != userId {
      WithoutRemovesOne(excluded[1..], userId);
      var rest := Without(excluded[1..], userId);
      assert ExcludedIds([excluded[0]] + rest) == [excluded[0].userId] + ExcludedIds(rest);
    }
  }

  lemma ReinstatedWasGated(candidates: seq<Candidate>, strong: bool, leName: (string, string) -> bool)
    ensures var back := Reinstated(candidates, strong, leName);
            && (forall c <- back :: c in candidates && Verdict(c, strong) == Some(BelowBehaviourBar))
            && (back == [] || (|back| == 1 && Select(candidates, HasVerdict(strong, None)) == []))
            && (back == [] ==> Select(candidates, HasVerdict(strong, None)) != []
                               || forall c <- candidates :: Verdict(c, strong) != Some(BelowBehaviourBar))
  {
    var caught := Select(candidates, HasVerdict(strong, Some(BelowBehaviourBar)));
    SelectElements(candidates, HasVerdict(strong, Some(BelowBehaviourBar)));
    SortPermutes(caught, DisciplineOrder(leName));
    var gated := Sort(caught, DisciplineOrder(leName));
    hide Verdict, Sort, Select;
    if gated != [] { assert gated[0] in gated; }
    forall c | c in candidates && gated == [] ensures Verdict(c, strong) != Some(BelowBehaviourBar) {
      assert HasVerdict(strong, Some(BelowBehaviourBar))(c) ==> c in gated;
    }
  }

  lemma ReinstatementPartition(kept: seq<Candidate>, back: Candidate, out: seq<Exclusion>, reason: Reason)
    requires Exclusion(back.userId, reason) in out
    ensures multiset(Ids(kept + [back])) + multiset(ExcludedIds(Without(out, back.userId)))
         == multiset(Ids(kept)) + multiset(ExcludedIds(out))
  {
    var i :| 0 <= i < |out| && out[i] == Exclusion(back.userId, reason);
    assert ExcludedIds(out)[i] == back.userId;
    WithoutRemovesOne(out, back.userId);
    assert Ids(kept + [back]) == Ids(kept) + [back.userId];
  }

  lemma EligiblePartition(candidates: seq<Candidate>, strong: bool, leName: (string, string) -> bool)
    ensures multiset(Ids(Eligible(candidates, strong, leName))) + multiset(ExcludedIds(Excluded(candidates, strong, leName)))
         == multiset(Ids(candidates))
  {
    var kept, back := Select(candidates, HasVerdict(strong, None)), Reinstated(candidates, strong, leName);
    GatePartitions(candidates, strong);
    ReinstatedWasGated(candidates, strong, leName);
    hide Verdict, Select, Reinstated, Exclusions, Without, Ids, ExcludedIds;
    if back != [] {
      assert back == [back[0]] && back[0] in back;
      ReinstatementPartition(kept, back[0], Exclusions(candidates, strong), BelowBehaviourBar);
    } else {
      assert kept + back == kept;
    }
  }

  /** Ids are kept by sorting and by promotion. */
  lemma {:induction false} InsertKeepsIds(x: Ranked, xs: seq<Ranked>, le: (Ranked, Ranked) -> bool)
    ensures multiset(RankedIds(Insert(x, xs, le))) == multiset{x.candidate.userId} + multiset(RankedIds(xs))
  {
    RankedIdsCons(x, xs);
    if xs != [] && !le(x, xs[0]) {
      InsertKeepsIds(x, xs[1..], le);
      RankedIdsCons(xs[0], xs[1..]);
      RankedIdsCons(xs[0], Insert(x, xs[1..], le));
      assert [xs[0]] + xs[1..] == xs;
      assert multiset(RankedIds(xs)) == multiset{xs[0].candidate.userId} + multiset(RankedIds(xs[1..]));
    }
  }

  lemma RankedIdsCons(x: Ranked, xs: seq<Ranked>)
    ensures multiset(RankedIds([x] + xs)) == multiset{x.candidate.userId} + multiset(RankedIds(xs))
  {
    assert RankedIds([x] + xs) == [x.candidate.userId] + RankedIds(xs);
  }

  lemma {:induction false} SortKeepsIds(xs: seq<Ranked>, le: (Ranked, Ranked) -> bool)
    ensures multiset(RankedIds(Sort(xs, le))) == multiset(RankedIds(xs))
  {
    if xs != [] {
      SortKeepsIds(xs[1..], le);
      InsertKeepsIds(xs[0], Sort(xs[1..], le), le);
      RankedIdsCons(xs[0], xs[1..]);
      assert [xs[0]] + xs[1..] == xs;
    }
  }

  lemma PromoteKeepsIds(ranked: seq<Ranked>, index: nat)
    requires index < |ranked|
    ensures multiset(RankedIds(Promote(ranked, index))) == multiset(RankedIds(ranked))
  {
    var id := ranked[index].candidate.userId;
    assert RankedIds(Promote(ranked, index)) == [id] + RankedIds(ranked[..index]) + RankedIds(ranked[index + 1..]);
    assert RankedIds(ranked) == RankedIds(ranked[..index]) + [id] + RankedIds(ranked[index + 1..]);
  }

  /** Everybody considered is either ranked or excluded, never both and never neither. */
  lemma RankedAndExcludedPartition(candidates: seq<Candidate>, strong: bool, cursor: int, leName: (string, string) -> bool)
    ensures multiset(RankedIds(Ranking(candidates, strong, cursor, leName))) + multiset(ExcludedIds(Excluded(candidates, strong, leName)))
         == multiset(Ids(candidates))
  {
    var eligible := Eligible(candidates, strong, leName);
    var scored := Scored(eligible, strong);
    var ranked := ByFit(candidates, strong, leName);
    EligiblePartition(candidates, strong, leName);
    SortKeepsIds(scored, FitOrder(leName));
    assert RankedIds(scored) == Ids(eligible);
    var index := FirstDeveloping(ranked);
    if 0 < index < |ranked| {
      PromoteKeepsIds(ranked, index);
    }
  }

  /** The ranking is empty exactly when nobody is available with spare capacity. */
  lemma EmptyOnlyIfNobody(candidates: seq<Candidate>, strong: bool, cursor: int, leName: (string, string) -> bool)
    ensures Ranking(candidates, strong, cursor, leName) == [] <==>
            forall c <- candidates :: c.isAvailable == Some(false) || c.openLeads >= CapacityOf(c)
  {
    EligibleEmpty(candidates, strong, leName);
    var eligible := Eligible(candidates, strong, leName);
    SortPermutes(Scored(eligible, strong), FitOrder(leName));
    hide Eligible, FitScore;
    assert |ByFit(candidates, strong, leName)| == |eligible|;
  }

  lemma EligibleEmpty(candidates: seq<Candidate>, strong: bool, leName: (string, string) -> bool)
    ensures Eligible(candidates, strong, leName) == [] <==>
            forall c <- candidates :: c.isAvailable == Some(false) || c.openLeads >= CapacityOf(c)
  {
    var kept, back := Select(candidates, HasVerdict(strong, None)), Reinstated(candidates, strong, leName);
    SelectElements(candidates, HasVerdict(strong, None));
    ReinstatedWasGated(candidates, strong, leName);
    hide Select, Reinstated;
    if kept != [] {
      assert kept[0] in kept && kept[0] in candidates && HasVerdict(strong, None)(kept[0]);
    } else if back != [] {
      assert back[0] in back && back[0] in candidates;
    } else {
      forall c | c in candidates ensures c.isAvailable == Some(false) || c.openLeads >= CapacityOf(c) {
        assert HasVerdict(strong, None)(c) ==> c in kept;
      }
    }
  }

  // ---------------------------------------------------------------------------
  // Order
  // ---------------------------------------------------------------------------

  lemma FitOrderIsPreorder(leName: (string, string) -> bool)
    requires TotalPreorder(leName)
    ensures TotalPreorder(FitOrder(leName))
  {
    var order := FitOrder(leName);
    forall x, y ensures order(x, y) || order(y, x) {
      assert leName(x.candidate.fullName, y.candidate.fullName) || leName(y.candidate.fullName, x.candidate.fullName);
    }
    forall x, y, z | order(x, y) && order(y, z) ensures order(x, z) {
      assert leName(x.candidate.fullName, y.candidate.fullName) && leName(y.candidate.fullName, z.candidate.fullName) ==>
          leName(x.candidate.fullName, z.candidate.fullName);
    }
  }

  lemma {:induction false} FirstDevelopingIsFirst(ranked: seq<Ranked>)
    ensures var index := FirstDeveloping(ranked);
            && index <= |ranked|
            && (index < |ranked| ==> Developing(ranked[index]))
            && forall k :: 0 <= k < index ==> !Developing(ranked[k])
  {
    if ranked != [] && !Developing(ranked[0]) {
      FirstDevelopingIsFirst(ranked[1..]);
    }
  }

  lemma ByFitSorted(candidates: seq<Candidate>, strong: bool, leName: (string, string) -> bool)
    requires TotalPreorder(leName)
    ensures Sorted(ByFit(candidates, strong, leName), FitOrder(leName))
  {
    FitOrderIsPreorder(leName);
    SortSorts(Scored(Eligible(candidates, strong, leName), strong), FitOrder(leName));
  }

  /** One entry of `byFit`, the first rated under 55 but not the first of all, was moved to the front and marked. */
  ghost predicate OnePromoted(ranking: seq<Ranked>, byFit: seq<Ranked>) {
    exists k :: 0 < k < |byFit| && |ranking| == |byFit| && ranking[0] == byFit[k].(isDevelopmentPick := true)
             && byFit[k].candidate.overall < 55.0 && (forall i :: 0 <= i < k ==> byFit[i].candidate.overall >= 55.0)
             && ranking[1..] == byFit[..k] + byFit[k + 1..]
  }

  /** The ranking is by descending fit, but for at most one developing candidate, who was not in front
      and is moved there; the others keep their order. */
  lemma OrderedByFitButOne(candidates: seq<Candidate>, strong: bool, cursor: int, leName: (string, string) -> bool)
    requires TotalPreorder(leName)
    ensures var ranking, byFit := Ranking(candidates, strong, cursor, leName), ByFit(candidates, strong, leName);
            && Sorted(byFit, FitOrder(leName)) && (forall r <- byFit :: !r.isDevelopmentPick)
            && (ranking == byFit || (strong && cursor % 4 == 0 && OnePromoted(ranking, byFit)))
  {
    hide Sorted, Eligible, FitScore, FitOrder;
    var byFit := ByFit(candidates, strong, leName);
    NoPicksByFit(candidates, strong, leName);
    ByFitSorted(candidates, strong, leName);
    FirstDevelopingIsFirst(byFit);
    hide ByFit, FirstDeveloping;
    var index := FirstDeveloping(byFit);
    if 0 < index < |byFit| {
      assert Promote(byFit, index)[1..] == byFit[..index] + byFit[index + 1..];
    }
  }

  /** On every fourth cursor value a strong lead puts a developing candidate first, whenever one is
      eligible, and it is the best-fitting of them. */
  lemma DevelopmentFloor(candidates: seq<Candidate>, cursor: int, leName: (string, string) -> bool, c: Candidate)
    requires TotalPreorder(leName) && cursor % 4 == 0
    requires c in Eligible(candidates, true, leName) && c.overall < 55.0
    ensures var ranking := Ranking(candidates, true, cursor, leName);
            ranking != [] && ranking[0].candidate.overall < 55.0 && ranking[0].fitScore >= FitScore(c, true)
  {
    hide Eligible, FitScore;
    var ranked := ByFit(candidates, true, leName);
    var j := RankOf(candidates, c, leName);
    ByFitSorted(candidates, true, leName);
    FirstDevelopingIsFirst(ranked);
    hide ByFit, FirstDeveloping;
    var index := FirstDeveloping(ranked);
    assert index <= j;
    if index < j {
      assert FitOrder(leName)(ranked[index], ranked[j]);
    }
  }

  lemma RankOf(candidates: seq<Candidate>, c: Candidate, leName: (string, string) -> bool) returns (j: nat)
    requires c in Eligible(candidates, true, leName)
    ensures j < |ByFit(candidates, true, leName)| && ByFit(candidates, true, leName)[j] == Ranked(c, FitScore(c, true), false)
  {
    hide Eligible, FitScore;
    var eligible := Eligible(candidates, true, leName);
    var scored := Scored(eligible, true);
    SortPermutes(scored, FitOrder(leName));
    var i :| 0 <= i < |eligible| && eligible[i] == c;
    assert scored[i] in scored;
    j :| 0 <= j < |Sort(scored, FitOrder(leName))| && Sort(scored, FitOrder(leName))[j] == scored[i];
  }

  // ---------------------------------------------------------------------------
  // Range
  // ---------------------------------------------------------------------------

  /** A better record never lowers a fit, and neither does a lighter load. */
  lemma FitIsMonotone(c: Candidate, d: Candidate, strong: bool)
    requires c.confidence == d.confidence && c.capacity == d.capacity
    requires c.overall <= d.overall && c.openLeads >= d.openLeads
    ensures FitScore(c, strong) <= FitScore(d, strong)
  {
    LighterLoad(c, d);
  }

  lemma LighterLoad(c: Candidate, d: Candidate)
    requires c.capacity == d.capacity && c.openLeads >= d.openLeads
    ensures 0.0 <= Headroom(c) <= Headroom(d) <= 1.0
  {
    var capacity := CapacityOf(c);
    if capacity > 0 {
      Quotients(c.openLeads as real, d.openLeads as real, capacity as real);
    }
  }

  lemma Quotients(a: real, b: real, n: real)
    requires a >= b >= 0.0 && n > 0.0
    ensures a / n >= b / n >= 0.0
  {
  }

  /** The less evidence, the closer a rating stays to neutral. */
  lemma LittleEvidenceIsTrustedLess(c: Candidate)
    ensures var high := TrustedRating(c.(confidence := High));
            var medium := TrustedRating(c.(confidence := Medium));
            var low := TrustedRating(c.(confidence := Low));
            && high == c.overall
            && (c.overall > 50.0 ==> 50.0 < low < medium < high) && (c.overall < 50.0 ==> 50.0 > low > medium > high)
  {
  }

  /** Going from an ordinary lead to a strong one never turns a ranking against the better record. */
  lemma StrongLeadsFollowTheRecord(better: Candidate, freer: Candidate)
    requires TrustedRating(better) >= TrustedRating(freer) && Headroom(better) <= Headroom(freer)
    ensures FitScore(better, false) > FitScore(freer, false) ==> FitScore(better, true) >= FitScore(freer, true)
  {
  }

  /** Whoever the behaviour gate gives back is the most disciplined of those it caught. */
  lemma ReinstatedIsMostDisciplined(candidates: seq<Candidate>, strong: bool, leName: (string, string) -> bool, c: Candidate)
    requires TotalPreorder(leName) && c in candidates && Verdict(c, strong) == Some(BelowBehaviourBar)
    ensures var back := Reinstated(candidates, strong, leName);
            back != [] ==> back[0].behaviourScore >= c.behaviourScore
  {
    hide Verdict;
    var gated := Select(candidates, HasVerdict(strong, Some(BelowBehaviourBar)));
    var order := DisciplineOrder(leName);
    SelectElements(candidates, HasVerdict(strong, Some(BelowBehaviourBar)));
    DisciplineOrderIsPreorder(leName);
    SortPermutes(gated, order);
    SortSorts(gated, order);
    var sorted := Sort(gated, order);
    var i :| 0 <= i < |sorted| && sorted[i] == c;
    assert i > 0 ==> order(sorted[0], sorted[i]);
  }

  lemma DisciplineOrderIsPreorder(leName: (string, string) -> bool)
    requires TotalPreorder(leName)
    ensures TotalPreorder(DisciplineOrder(leName))
  {
    var order := DisciplineOrder(leName);
    forall a, b ensures order(a, b) || order(b, a) {
      assert leName(a.fullName, b.fullName) || leName(b.fullName, a.fullName);
    }
    forall a, b, c | order(a, b) && order(b, c) ensures order(a, c) {
      assert leName(a.fullName, b.fullName) && leName(b.fullName, c.fullName) ==> leName(a.fullName, c.fullName);
    }
  }

  /** With ratings between 0 and 100, fits are too. */
  lemma FitInRange(c: Candidate, strong: bool)
    requires 0.0 <= c.overall <= 100.0
    ensures 0 <= FitScore(c, strong) <= 100
  {
    var rating, room := TrustedRating(c), Headroom(c);
    assert 0.0 <= rating <= 100.0;
    assert 0.0 <= room <= 1.0;
  }
}

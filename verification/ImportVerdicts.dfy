/** What a row of an import file is judged to be, from its cells and the evidence, and what the counters
    of a batch count: `validate` and `commit` of `apps/api/src/modules/imports/imports.service.ts`. */
module ImportVerdicts {
  import opened Text
  import opened ImportRows
  import opened ImportColumns
  import opened ImportBatch
  import opened MatchEvidence
  import Identity
  import Matching

  /** A candidate stops a row exactly if it is the same person, or there is telling evidence that it is. */
  lemma MatchedIff(p: Matching.Person, pool: seq<Matching.Candidate>)
    ensures Matched(p, pool) <==> exists c <- pool :: Matching.SameIdentity(p, c.person) || Telling(p, c.person)
  {
    hide Matching.FindMatches, Matching.SameIdentity, Telling;
    SuggestionIff(p, pool, 1);
  }

  /** The row has a mobile number that is one, and a name is left of it. */
  ghost predicate SoundCells(cells: Cells, columns: Columns) {
    var first, last, mobile := CellOf(cells, columns, FirstName), CellOf(cells, columns, LastName), CellOf(cells, columns, Mobile);
    && mobile.Some? && Identity.IndianMobile(mobile.value).Some?
    && first.Some? && (last.None? && ' ' in first.value ==> SplitFullName(first.value).0 != "")
  }

  /** The number a row is told apart by. */
  ghost function MobileOf(cells: Cells, columns: Columns): Option<string> {
    var mobile := CellOf(cells, columns, Mobile);
    if mobile.None? then None else Identity.IndianMobile(mobile.value)
  }

  /** A row is invalid without a name or a mobile number; a duplicate if an earlier sound row has its number or a
      candidate stops it; and valid otherwise. It keeps its number and cells, and notes the mobile if it is sound. */
  lemma JudgedIs(rows: seq<Row>, columns: Columns, pool: seq<Matching.Candidate>, i: nat)
    requires i < |rows|
    ensures var row := JudgedRows(rows, columns, pool)[i];
            var cells := rows[i].raw;
            var p := RowPerson(cells, columns);
            && row.number == rows[i].number && row.raw == cells
            && row.mobile == (if SoundCells(cells, columns) then MobileOf(cells, columns) else None)
            && (row.status == Valid || row.status == Invalid || row.status == Duplicate)
            && (row.status == Invalid <==> !SoundCells(cells, columns))
            && (row.status == Duplicate <==>
                  && SoundCells(cells, columns)
                  && (|| (exists k :: 0 <= k < i && SoundCells(rows[k].raw, columns) && MobileOf(rows[k].raw, columns) == MobileOf(cells, columns))
                      || exists c <- pool :: Matching.SameIdentity(p, c.person) || Telling(p, c.person)))
  {
    hide Sound, RowPerson, CellOf, Matched, SplitFullName, Matching.SameIdentity, Telling, Identity.IndianMobile;
    var raws := Raws(rows);
    forall k | 0 <= k <= i
      ensures Sound(raws[k], columns) <==> SoundCells(raws[k], columns)
      ensures Sound(raws[k], columns) ==> RowPerson(raws[k], columns).mobile == MobileOf(raws[k], columns)
    {
      ErrorsFromCells(raws[k], columns);
      PersonContacts(raws[k], columns);
    }
    MatchedIff(RowPerson(rows[i].raw, columns), pool);
    hide SoundCells, MobileOf;
    if RepeatsEarlier(raws, columns, i) && Sound(raws[i], columns) {
      var k :| 0 <= k < i && Sound(raws[k], columns) && RowPerson(raws[k], columns).mobile == RowPerson(raws[i], columns).mobile;
      assert rows[k].raw == raws[k];
    }
    if k :| 0 <= k < i && SoundCells(rows[k].raw, columns) && MobileOf(rows[k].raw, columns) == MobileOf(rows[i].raw, columns) {
      assert rows[k].raw == raws[k];
    }
  }

  ghost function WithStatus(rows: seq<Row>, status: RowStatus): set<nat> {
    set i: nat | i < |rows| && rows[i].status == status
  }

  /** The counters count rows. */
  lemma {:induction false} CountIsSize(rows: seq<Row>, status: RowStatus)
    ensures CountStatus(rows, status) == |WithStatus(rows, status)|
  {
    if rows == [] {
      assert WithStatus(rows, status) == {};
    } else {
      var n: nat := |rows| - 1;
      CountIsSize(rows[..n], status);
      WithStatusSnoc(rows, status);
      hide WithStatus;
    }
  }

  lemma WithStatusSnoc(rows: seq<Row>, status: RowStatus)
    requires rows != []
    ensures var n: nat := |rows| - 1;
            var before := WithStatus(rows[..n], status);
            n !in before && WithStatus(rows, status) == before + if rows[n].status == status then {n} else {}
  {
    var n: nat := |rows| - 1;
    assert forall i: nat :: i < n ==> rows[..n][i] == rows[i];
  }

  ghost function LostWrites(rows: seq<Row>, overrides: map<nat, Choice>, results: nat -> Result): set<nat> {
    set i: nat | i < |rows| && (rows[i].status == Valid || rows[i].status == Duplicate)
                 && Chosen(rows[i], overrides) && results(rows[i].number) == CreatedUnrecorded
  }

  /** The correction counts the rows whose lead exists although its status write failed. */
  lemma {:induction false} UnrecordedIsSize(rows: seq<Row>, overrides: map<nat, Choice>, results: nat -> Result)
    ensures CountUnrecorded(rows, overrides, results) == |LostWrites(rows, overrides, results)|
  {
    if rows == [] {
      assert LostWrites(rows, overrides, results) == {};
    } else {
      var n: nat := |rows| - 1;
      UnrecordedIsSize(rows[..n], overrides, results);
      LostWritesSnoc(rows, overrides, results);
    }
  }

  lemma LostWritesSnoc(rows: seq<Row>, overrides: map<nat, Choice>, results: nat -> Result)
    requires rows != []
    ensures var n: nat := |rows| - 1;
            LostWrites(rows, overrides, results) == (
              LostWrites(rows[..n], overrides, results) + if Unrecorded(rows[n], overrides, results) then {n} else {})
  {
    var n: nat := |rows| - 1;
    assert forall i: nat :: i < n ==> rows[..n][i] == rows[i];
  }
}

/** Validating and committing an import batch: `validate` and `commit` of
    `apps/api/src/modules/imports/imports.service.ts`. Whether the creation of a lead succeeds is
    outside the model, so every row may fail. */
module ImportBatch {
  import opened Text
  import opened ImportRows
  import Sorting
  import Matching

  datatype RowStatus = Pending | Valid | Invalid | Duplicate | Imported | Skipped

  datatype BatchStatus = Parsed | Validated | Committed

  datatype Row = Row(number: nat, raw: Cells, status: RowStatus, mobile: Option<string>)

  datatype Choice = Create | Skip

  function Raws(rows: seq<Row>): (raws: seq<Cells>)
    ensures |raws| == |rows|
  {
    seq(|rows|, i requires 0 <= i < |rows| => rows[i].raw)
  }

  // ---------------------------------------------------------------------------
  // Validation
  // ---------------------------------------------------------------------------

  /** An earlier sound row of the file has the same mobile. */
  predicate RepeatsEarlier(raws: seq<Cells>, columns: Columns, i: nat)
    requires i < |raws|
  {
    exists k :: 0 <= k < i && Sound(raws[k], columns) && RowPerson(raws[k], columns).mobile == RowPerson(raws[i], columns).mobile
  }

  predicate Matched(p: Matching.Person, pool: seq<Matching.Candidate>) {
    var best := Matching.Best(Matching.FindMatches(p, pool, 1));
    best.Some? && (best.value.confidence.Definite? || best.value.confidence.Probable?)
  }

  function Verdict(raws: seq<Cells>, columns: Columns, pool: seq<Matching.Candidate>, i: nat): RowStatus
    requires i < |raws|
  {
    if !Sound(raws[i], columns) then Invalid
    else if RepeatsEarlier(raws, columns, i) then Duplicate
    else if Matched(RowPerson(raws[i], columns), pool) then Duplicate
    else Valid
  }

  /** The rows with their verdicts; a sound row also records its normalised mobile. */
  function JudgedRows(rows: seq<Row>, columns: Columns, pool: seq<Matching.Candidate>): (after: seq<Row>)
    ensures |after| == |rows|
  {
    seq(|rows|, i requires 0 <= i < |rows| =>
      Row(rows[i].number, rows[i].raw, Verdict(Raws(rows), columns, pool, i),
          if Sound(rows[i].raw, columns) then RowPerson(rows[i].raw, columns).mobile else None))
  }

  lemma JudgingKeepsCells(rows: seq<Row>, columns: Columns, pool: seq<Matching.Candidate>)
    ensures Raws(JudgedRows(rows, columns, pool)) == Raws(rows)
  {
    hide Verdict, Sound, RowPerson;
  }

  function CountStatus(rows: seq<Row>, status: RowStatus): nat {
    if rows == [] then 0 else CountStatus(rows[..|rows| - 1], status) + if rows[|rows| - 1].status == status then 1 else 0
  }

  // ---------------------------------------------------------------------------
  // Committing
  // ---------------------------------------------------------------------------

  predicate Processed(row: Row) {
    row.status.Valid? || row.status.Duplicate?
  }

  function Decide(row: Row, overrides: map<nat, Choice>): Choice {
    if row.number in overrides then overrides[row.number] else if row.status.Duplicate? then Skip else Create
  }

  /** How creating the lead of a row went. `NotCreated` is any failure inside the creation, also one after the
      lead was inserted, since that step is no transaction. The status write comes after the creation, and
      counts a failure of its own as a skipped row although the lead exists. */
  datatype Result = Created | NotCreated | CreatedUnrecorded

  function Settled(row: Row, overrides: map<nat, Choice>, results: nat -> Result): RowStatus {
    if !Processed(row) then row.status
    else if Decide(row, overrides).Skip? then Skipped
    else if results(row.number).Created? then Imported
    else Invalid
  }

  predicate Unrecorded(row: Row, overrides: map<nat, Choice>, results: nat -> Result) {
    Processed(row) && Decide(row, overrides).Create? && results(row.number).CreatedUnrecorded?
  }

  function CountUnrecorded(rows: seq<Row>, overrides: map<nat, Choice>, results: nat -> Result): nat {
    if rows == [] then 0
    else CountUnrecorded(rows[..|rows| - 1], overrides, results) + if Unrecorded(rows[|rows| - 1], overrides, results) then 1 else 0
  }

  function SettledRows(rows: seq<Row>, overrides: map<nat, Choice>, results: nat -> Result): (after: seq<Row>)
    ensures |after| == |rows|
  {
    seq(|rows|, i requires 0 <= i < |rows| => rows[i].(status := Settled(rows[i], overrides, results)))
  }

  function CountProcessed(rows: seq<Row>): nat {
    CountStatus(rows, Valid) + CountStatus(rows, Duplicate)
  }

  /** What the rows of a validated batch look like. */
  ghost predicate Judged(rows: seq<Row>) {
    && (forall row <- rows :: row.status.Valid? || row.status.Invalid? || row.status.Duplicate?)
    && forall i, j :: 0 <= i < j < |rows| && rows[i].status.Valid? && rows[j].status.Valid? ==> rows[i].mobile != rows[j].mobile
  }

  /** The loop over the rows of a file, with the mobiles seen so far and the three counters. */
  method JudgeAll(rows: seq<Row>, columns: Columns, candidates: seq<Matching.Candidate>)
    returns (judged: seq<Row>, valid: nat, invalid: nat, duplicate: nat)
    ensures judged == JudgedRows(rows, columns, candidates)
    ensures valid == CountStatus(judged, Valid) && invalid == CountStatus(judged, Invalid)
    ensures duplicate == CountStatus(judged, Duplicate)
  {
    hide MapAndValidate, AsPerson, Matched, Sound, RowPerson, RepeatsEarlier, SeenFirst, CountStatus;
    ghost var raws := Raws(rows);
    valid, invalid, duplicate := 0, 0, 0;
    judged := [];
    var seenInFile: map<string, nat> := map[];
    NothingSeen(raws, columns);
    NothingCounted();
    for i := 0 to |rows|
      invariant SeenFirst(seenInFile, raws, columns, i)
      invariant judged == JudgedRows(rows, columns, candidates)[..i]
      invariant valid == CountStatus(judged, Valid) && invalid == CountStatus(judged, Invalid)
      invariant duplicate == CountStatus(judged, Duplicate)
    {
      var checked := MapAndValidate(rows[i].raw, columns);
      var person := AsPerson(checked.mapped);
      SoundMobile(raws[i], columns);
      SeenNext(seenInFile, raws, columns, i, rows[i].number);
      var status: RowStatus;
      if checked.errors != [] {
        status := Invalid;
        invalid := invalid + 1;
      } else if person.mobile.value in seenInFile {
        status := Duplicate;
        duplicate := duplicate + 1;
      } else {
        seenInFile := seenInFile[person.mobile.value := rows[i].number];
        if Matched(person, candidates) {
          status := Duplicate;
          duplicate := duplicate + 1;
        } else {
          status := Valid;
          valid := valid + 1;
        }
      }
      var row := rows[i].(status := status, mobile := if checked.errors == [] then person.mobile else None);
      assert row == JudgedRows(rows, columns, candidates)[i];
      CountSnoc(judged, row);
      judged := judged + [row];
    }
  }

  /** The rows are judged against the candidates for the file, keep their cells, and are counted. */
  ghost predicate IsJudgement(rows: seq<Row>, judged: seq<Row>, columns: Columns, book: seq<Lead>, valid: nat, invalid: nat, duplicate: nat) {
    && judged == JudgedRows(rows, columns, Pool(Raws(rows), columns, book))
    && Raws(judged) == Raws(rows)
    && valid == CountStatus(judged, Valid) && invalid == CountStatus(judged, Invalid)
    && duplicate == CountStatus(judged, Duplicate)
  }

  /** Loads the candidates for a file and judges its rows against them. */
  method JudgeFile(rows: seq<Row>, columns: Columns, book: seq<Lead>)
    returns (judged: seq<Row>, valid: nat, invalid: nat, duplicate: nat)
    ensures IsJudgement(rows, judged, columns, book, valid, invalid, duplicate)
    ensures Judged(judged)
  {
    hide JudgedRows, Raws, Judged, CountStatus, Pool;
    var candidates := LoadCandidatePool(Raws(rows), columns, book);
    ValidRowsApart(rows, columns, candidates);
    JudgingKeepsCells(rows, columns, candidates);
    judged, valid, invalid, duplicate := JudgeAll(rows, columns, candidates);
  }

  /** A lead is to be made of the row: somebody said so, or it is valid and nobody said otherwise. */
  ghost predicate Chosen(row: Row, overrides: map<nat, Choice>) {
    || (row.number in overrides && overrides[row.number] == Create)
    || (row.number !in overrides && row.status == Valid)
  }

  /** Every row that was valid or a duplicate ends imported, skipped or invalid, each for its own reason; no
      other row changes, and nothing but the status of any. */
  ghost predicate EveryRowSettled(rows: seq<Row>, after: seq<Row>, overrides: map<nat, Choice>, results: nat -> Result) {
    && |after| == |rows|
    && forall i :: 0 <= i < |rows| ==>
      && after[i] == rows[i].(status := after[i].status)
      && if rows[i].status.Valid? || rows[i].status.Duplicate? then
           && (after[i].status.Imported? || after[i].status.Skipped? || after[i].status.Invalid?)
           && (after[i].status.Imported? <==> Chosen(rows[i], overrides) && results(rows[i].number).Created?)
           && (after[i].status.Skipped? <==> !Chosen(rows[i], overrides))
         else
           after[i].status == rows[i].status
  }

  lemma EveryRowSettles(rows: seq<Row>, overrides: map<nat, Choice>, results: nat -> Result)
    ensures EveryRowSettled(rows, SettledRows(rows, overrides, results), overrides, results)
  {
  }

  /** The loop over the rows of a validated batch, with its two counters. */
  method SettleAll(rows: seq<Row>, overrides: map<nat, Choice>, results: nat -> Result)
    returns (settled: seq<Row>, imported: nat, skipped: nat)
    requires Judged(rows)
    ensures settled == SettledRows(rows, overrides, results) && EveryRowSettled(rows, settled, overrides, results)
    ensures imported == CountStatus(settled, Imported) + CountUnrecorded(rows, overrides, results)
    ensures imported + skipped == CountProcessed(rows) + CountUnrecorded(rows, overrides, results)
  {
    hide CountStatus, SettledRows, CountUnrecorded, EveryRowSettled;
    EveryRowSettles(rows, overrides, results);
    NothingCounted();
    NothingSettled(overrides, results);
    UnrecordedNone([], overrides, results);
    imported, skipped := 0, 0;
    settled := [];
    for i := 0 to |rows|
      invariant settled == SettledRows(rows[..i], overrides, results)
      invariant imported == CountStatus(settled, Imported) + CountUnrecorded(rows[..i], overrides, results)
      invariant imported + skipped == CountProcessed(rows[..i]) + CountUnrecorded(rows[..i], overrides, results)
    {
      var row := rows[i];
      assert rows[..i + 1] == rows[..i] + [row];
      CountSnoc(rows[..i], row);
      if row.status.Valid? || row.status.Duplicate? {
        var decision := Decide(row, overrides);
        if decision.Skip? {
          skipped := skipped + 1;
          row := row.(status := Skipped);
        } else {
          if !results(row.number).NotCreated? {
            imported := imported + 1;
          }
          if results(row.number).Created? {
            row := row.(status := Imported);
          } else {
            skipped := skipped + 1;
            row := row.(status := Invalid);
          }
        }
      }
      SettledSnoc(rows[..i], rows[i], overrides, results);
      UnrecordedSnoc(rows[..i], rows[i], overrides, results);
      CountSnoc(settled, row);
      settled := settled + [row];
    }
    assert rows[..|rows|] == rows;
  }

  lemma UnrecordedSnoc(rows: seq<Row>, row: Row, overrides: map<nat, Choice>, results: nat -> Result)
    ensures CountUnrecorded(rows + [row], overrides, results)
         == CountUnrecorded(rows, overrides, results) + if Unrecorded(row, overrides, results) then 1 else 0
  {
    hide Unrecorded;
    assert (rows + [row])[..|rows|] == rows;
  }

  /** The counters are right exactly when no status write fails after its lead was created. */
  lemma {:induction false} UnrecordedNone(rows: seq<Row>, overrides: map<nat, Choice>, results: nat -> Result)
    ensures CountUnrecorded(rows, overrides, results) == 0 <==> forall row <- rows :: !Unrecorded(row, overrides, results)
  {
    hide Unrecorded;
    if rows != [] {
      var earlier, last := rows[..|rows| - 1], rows[|rows| - 1];
      UnrecordedNone(earlier, overrides, results);
      assert last in rows && forall row <- rows :: row in earlier || row == last;
    }
  }

  /** A batch that is counted wrongly: one valid row, whose lead is created and whose status write fails.
      It counts as imported and as skipped, and ends invalid. */
  lemma UnrecordedIsCountedTwice(cells: Cells)
    ensures var rows, results := [Row(1, cells, Valid, None)], EveryWriteFails();
            && Judged(rows) && CountProcessed(rows) == 1 && CountUnrecorded(rows, map[], results) == 1
            && CountStatus(SettledRows(rows, map[], results), Imported) == 0
  {
    var row := Row(1, cells, Valid, None);
    OneRowCounts(row);
    OneRowCounts(row.(status := Invalid));
    assert SettledRows([row], map[], EveryWriteFails()) == [row.(status := Invalid)];
    hide CountStatus, SettledRows;
    assert [row][..0] == [];
    assert Unrecorded(row, map[], EveryWriteFails());
  }

  lemma OneRowCounts(row: Row)
    ensures forall s :: CountStatus([row], s) == if row.status == s then 1 else 0
  {
    NothingCounted();
    CountSnoc([], row);
    assert [] + [row] == [row];
  }

  function EveryWriteFails(): nat -> Result {
    (n: nat) => CreatedUnrecorded
  }

  lemma NothingSettled(overrides: map<nat, Choice>, results: nat -> Result)
    ensures SettledRows([], overrides, results) == []
  {
  }

  lemma SettledSnoc(rows: seq<Row>, row: Row, overrides: map<nat, Choice>, results: nat -> Result)
    ensures SettledRows(rows + [row], overrides, results)
         == SettledRows(rows, overrides, results) + [row.(status := Settled(row, overrides, results))]
  {
    hide Settled;
  }

  class Batch {
    var status: BatchStatus
    var rows: seq<Row>
    var valid: nat
    var invalid: nat
    var duplicate: nat
    var imported: nat
    var skipped: nat

    ghost predicate Consistent()
      reads this
    {
      status.Validated? ==> Judged(rows)
    }

    constructor (cells: seq<Cells>)
      ensures Consistent() && status == Parsed && |rows| == |cells|
      ensures forall i :: 0 <= i < |rows| ==> rows[i] == Row(i + 1, cells[i], Pending, None)
    {
      status := Parsed;
      rows := seq(|cells|, i requires 0 <= i < |cells| => Row(i + 1, cells[i], Pending, None));
      valid, invalid, duplicate, imported, skipped := 0, 0, 0, 0, 0;
    }

    /** Judges every row; refused once the batch is committed. */
    method Validate(columns: Columns, book: seq<Lead>) returns (ok: bool)
      requires Consistent()
      modifies this
      ensures Consistent() && ok == !old(status).Committed?
      ensures !ok ==> status == old(status) && rows == old(rows)
      ensures ok ==> status == Validated && IsJudgement(old(rows), rows, columns, book, valid, invalid, duplicate)
      ensures imported == old(imported) && skipped == old(skipped)
    {
      if status.Committed? { return false; }
      hide *;
      var judged, v, n, d := JudgeFile(rows, columns, book);
      rows, valid, invalid, duplicate := judged, v, n, d;
      status := Validated;
      ok := true;
    }

    /** Creates leads for the rows chosen; duplicates are skipped unless overridden, and a failed row
        does not stop the others. */
    method Commit(overrides: map<nat, Choice>, results: nat -> Result) returns (ok: bool)
      requires Consistent()
      modifies this
      ensures Consistent() && ok == old(status).Validated?
      ensures !ok ==> status == old(status) && rows == old(rows) && imported == old(imported) && skipped == old(skipped)
      ensures ok ==> status == Committed && rows == SettledRows(old(rows), overrides, results)
      ensures ok ==> EveryRowSettled(old(rows), rows, overrides, results)
      ensures ok ==> var lost := CountUnrecorded(old(rows), overrides, results);
                     imported == CountStatus(rows, Imported) + lost && imported + skipped == CountProcessed(old(rows)) + lost
      ensures valid == old(valid) && invalid == old(invalid) && duplicate == old(duplicate)
    {
      if !status.Validated? { return false; }
      hide *;
      var settled, done, passed := SettleAll(rows, overrides, results);
      rows, imported, skipped := settled, done, passed;
      status := Committed;
      ok := true;
    }
  }

  lemma CountSnoc(rows: seq<Row>, row: Row)
    ensures forall s :: CountStatus(rows + [row], s) == CountStatus(rows, s) + if row.status == s then 1 else 0
  {
    assert (rows + [row])[..|rows|] == rows;
  }

  /** The map of mobiles seen holds exactly those of the sound rows before `i`. */
  ghost predicate SeenFirst(seen: map<string, nat>, raws: seq<Cells>, columns: Columns, i: nat)
    requires i <= |raws|
  {
    forall m: string :: m in seen <==>
      exists k :: 0 <= k < i && Sound(raws[k], columns) && RowPerson(raws[k], columns).mobile == Some(m)
  }

  lemma NothingSeen(raws: seq<Cells>, columns: Columns)
    ensures SeenFirst(map[], raws, columns, 0)
  {
  }

  lemma NothingCounted()
    ensures forall s :: CountStatus([], s) == 0
  {
  }

  lemma SeenNext(seen: map<string, nat>, raws: seq<Cells>, columns: Columns, i: nat, number: nat)
    requires i < |raws| && SeenFirst(seen, raws, columns, i)
    ensures var mobile := RowPerson(raws[i], columns).mobile;
            if !Sound(raws[i], columns) then
              SeenFirst(seen, raws, columns, i + 1)
            else
              && mobile.Some?
              && (mobile.value in seen <==> RepeatsEarlier(raws, columns, i))
              && SeenFirst(if mobile.value in seen then seen else seen[mobile.value := number], raws, columns, i + 1)
  {
    hide Sound, RowPerson;
    if Sound(raws[i], columns) {
      SoundRow(raws[i], columns);
    }
  }

  lemma SoundMobile(cells: Cells, columns: Columns)
    ensures Sound(cells, columns) <==> MapAndValidate(cells, columns).errors == []
    ensures RowPerson(cells, columns) == AsPerson(MapAndValidate(cells, columns).mapped)
  {
  }

  lemma ValidRowsApart(rows: seq<Row>, columns: Columns, pool: seq<Matching.Candidate>)
    ensures Judged(JudgedRows(rows, columns, pool))
  {
    hide Sound, RowPerson, Matched;
    var raws, judged := Raws(rows), JudgedRows(rows, columns, pool);
    forall i, j | 0 <= i < j < |rows| && judged[i].status.Valid? && judged[j].status.Valid?
      ensures judged[i].mobile != judged[j].mobile
    {
      assert !RepeatsEarlier(raws, columns, j);
    }
  }

  // ---------------------------------------------------------------------------
  // What the verdicts and outcomes mean
  // ---------------------------------------------------------------------------

  /** A row judged valid repeats no mobile of another valid row, and no mobile or PAN of any undeleted
      lead in the book, although only the narrowed pool was searched; except, where the query hit its cap,
      those of the leads beyond it. */
  lemma ValidRowIsNew(raws: seq<Cells>, columns: Columns, book: seq<Lead>, i: nat)
    requires Canonical(book) && i < |raws|
    requires Verdict(raws, columns, Pool(raws, columns, book), i) == Valid
    ensures var p := RowPerson(raws[i], columns);
            && p.mobile.Some?
            && (forall j: nat :: j < |raws| && j != i && Verdict(raws, columns, Pool(raws, columns, book), j) == Valid ==>
                  RowPerson(raws[j], columns).mobile != p.mobile)
            && (forall lead <- book :: !lead.deleted && lead !in BeyondCap(raws, columns, book) ==>
                  lead.person.mobile != p.mobile && (p.pan.Some? ==> lead.person.pan != p.pan))
  {
    hide Sound, RowPerson, Pool, FileKeys, BeyondCap, Matching.FindMatches, Matching.SameIdentity;
    var p := RowPerson(raws[i], columns);
    var pool := Pool(raws, columns, book);
    SoundRow(raws[i], columns);
    forall j: nat | j < |raws| && j != i && Verdict(raws, columns, pool, j) == Valid
      ensures RowPerson(raws[j], columns).mobile != p.mobile
    {
      assert !RepeatsEarlier(raws, columns, i) && !RepeatsEarlier(raws, columns, j);
    }
    Matching.SkipIffSameIdentity(p, pool, 1);
    forall lead | lead in book && !lead.deleted && lead !in BeyondCap(raws, columns, book)
      ensures lead.person.mobile != p.mobile && (p.pan.Some? ==> lead.person.pan != p.pan)
    {
      CanonicalIdentity(p, lead, book);
      if Matching.SameIdentity(p, lead.person) {
        LostOnlyBeyondCap(raws, columns, book, i, lead);
      }
    }
  }

  /** With no CREATE override, no two imported rows share a mobile. */
  lemma ImportedApart(rows: seq<Row>, overrides: map<nat, Choice>, results: nat -> Result, i: nat, j: nat)
    requires Judged(rows) && forall n <- overrides :: overrides[n].Skip?
    requires i < j < |rows|
    requires var after := SettledRows(rows, overrides, results); after[i].status.Imported? && after[j].status.Imported?
    ensures rows[i].mobile != rows[j].mobile
  {
    assert rows[i] in rows && rows[j] in rows;
  }
}

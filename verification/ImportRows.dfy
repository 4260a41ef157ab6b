/** One import file against the book: column mapping, row checks and the candidate pool of
    `apps/api/src/modules/imports/imports.service.ts`. */
module ImportRows {
  import opened Text
  import opened Identity
  import opened Sorting
  import Names
  import Matching

  datatype Field = FirstName | LastName | Mobile | Email | Pan | City | State | Pincode | ProductInterest | EstimatedValue | Notes

  type Columns = seq<Option<Field>>
  type Cells = seq<string>
  type Pairs = seq<(Field, string)>

  datatype Lead = Lead(id: string, person: Matching.Person, deleted: bool)

  datatype RowError = NameMissing | MobileMissing | MobileInvalid

  /** `indexed[field]` for the fields present, and what was wrong. */
  datatype Checked = Checked(mapped: map<Field, string>, errors: seq<RowError>)

  // ---------------------------------------------------------------------------
  // Mapping
  // ---------------------------------------------------------------------------

  function CellAt(cells: Cells, i: nat): string {
    if i < |cells| then Trim(cells[i]) else ""
  }

  /** The mapped, non-empty cells of a row among the first `n` columns, in column order. */
  function RowPairs(cells: Cells, columns: Columns, n: nat): Pairs
    requires n <= |columns|
  {
    if n == 0 then []
    else
      var value := CellAt(cells, n - 1);
      RowPairs(cells, columns, n - 1) + if columns[n - 1].Some? && value != [] then [(columns[n - 1].value, value)] else []
  }

  /** A later column of the same field overwrites an earlier one. */
  function Collect(pairs: Pairs): map<Field, string> {
    if pairs == [] then map[] else Collect(pairs[..|pairs| - 1])[pairs[|pairs| - 1].0 := pairs[|pairs| - 1].1]
  }

  function IndexOf(s: string, c: char): nat {
    if s == [] || s[0] == c then 0 else 1 + IndexOf(s[1..], c)
  }

  function CommasToSpaces(s: string): (r: string)
    ensures |r| == |s|
  {
    seq(|s|, i requires 0 <= i < |s| => if s[i] == ',' then ' ' else s[i])
  }

  function SplitFullName(value: string): (string, Option<string>) {
    var trimmed := Trim(value);
    var comma := IndexOf(trimmed, ',');
    var surname := if 0 < comma < |trimmed| then Trim(trimmed[..comma]) else "";
    var given := if 0 < comma < |trimmed| then Trim(trimmed[comma + 1..]) else "";
    var tokens := Names.Words(CommasToSpaces(trimmed), "");
    if trimmed == "" then ("", None)
    else if surname != "" && given != "" then (given, Some(surname))
    else if tokens == [] then ("", None)
    else (tokens[0], if |tokens| == 1 then None else Some(Names.Join(tokens[1..])))
  }

  function SplitName(mapped: map<Field, string>): map<Field, string> {
    if FirstName in mapped && LastName !in mapped && ' ' in mapped[FirstName] then
      var (first, last) := SplitFullName(mapped[FirstName]);
      var named := mapped[FirstName := first];
      if last.Some? then named[LastName := last.value] else named
    else mapped
  }

  predicate EmailShaped(s: string) {
    exists at :: 0 < at < |s| && s[at] == '@'
      && (forall i :: 0 <= i < |s| ==> !IsSpace(s[i]) && (s[i] == '@' ==> i == at))
      && exists dot :: at + 1 < dot < |s| - 1 && s[dot] == '.'
  }

  predicate PincodeShaped(s: string) {
    |s| == 6 && AllDigits(s) && s[0] != '0'
  }

  function Drop(mapped: map<Field, string>, field: Field): map<Field, string> {
    mapped - {field}
  }

  function CheckMobile(mapped: map<Field, string>): Checked {
    if Mobile !in mapped then Checked(mapped, [MobileMissing])
    else match IndianMobile(mapped[Mobile])
      case Some(number) => Checked(mapped[Mobile := number], [])
      case None => Checked(mapped, [MobileInvalid])
  }

  /** A bad email, PAN or PIN code is dropped; only the name and the mobile can fail a row. */
  function CheckRest(mapped: map<Field, string>): map<Field, string> {
    var m1 := if Email in mapped && !EmailShaped(mapped[Email]) then Drop(mapped, Email) else mapped;
    var m2 := if Pan in m1 then
                match PanSchema(m1[Pan]) { case Some(pan) => m1[Pan := pan] case None => Drop(m1, Pan) }
              else m1;
    if Pincode in m2 && !PincodeShaped(m2[Pincode]) then Drop(m2, Pincode) else m2
  }

  function MapAndValidate(cells: Cells, columns: Columns): Checked {
    var mapped := SplitName(Collect(RowPairs(cells, columns, |columns|)));
    var nameErrors := if FirstName !in mapped || mapped[FirstName] == "" then [NameMissing] else [];
    var checked := CheckMobile(mapped);
    Checked(CheckRest(checked.mapped), nameErrors + checked.errors)
  }

  function Get(mapped: map<Field, string>, field: Field): Option<string> {
    if field in mapped then Some(mapped[field]) else None
  }

  function AsPerson(mapped: map<Field, string>): Matching.Person {
    Matching.Person(if FirstName in mapped then mapped[FirstName] else "", Get(mapped, LastName), Get(mapped, Mobile),
                    Get(mapped, Email), Get(mapped, Pan), Get(mapped, City))
  }

  function RowPerson(cells: Cells, columns: Columns): Matching.Person {
    AsPerson(MapAndValidate(cells, columns).mapped)
  }

  predicate Sound(cells: Cells, columns: Columns) {
    MapAndValidate(cells, columns).errors == []
  }

  // ---------------------------------------------------------------------------
  // What a sound row carries
  // ---------------------------------------------------------------------------

  lemma {:induction false} CollectedFrom(pairs: Pairs, field: Field)
    requires field in Collect(pairs)
    ensures (field, Collect(pairs)[field]) in pairs
  {
    var last := |pairs| - 1;
    if pairs[last].0 != field {
      CollectedFrom(pairs[..last], field);
    } else {
      assert pairs[last] == (field, Collect(pairs)[field]);
    }
  }

  /** The mobile and PAN of a sound row are what the edge schemas made of some mapped cell. */
  lemma SoundRow(cells: Cells, columns: Columns)
    requires Sound(cells, columns)
    ensures var p := RowPerson(cells, columns);
            var pairs := RowPairs(cells, columns, |columns|);
            && p.mobile.Some? && IsMobile(p.mobile.value)
            && (exists raw :: (Mobile, raw) in pairs && IndianMobile(raw) == p.mobile)
            && (p.pan.Some? ==> PanShaped(p.pan.value) && exists raw :: (Pan, raw) in pairs && PanSchema(raw) == p.pan)
  {
    hide IndianMobile, PanSchema, EmailShaped, SplitFullName, RowPairs, Collect, PincodeShaped;
    var pairs := RowPairs(cells, columns, |columns|);
    var collected := Collect(pairs);
    var mapped := SplitName(collected);
    assert Mobile in collected && mapped[Mobile] == collected[Mobile];
    var p := RowPerson(cells, columns);
    assert p.mobile == IndianMobile(collected[Mobile]);
    CollectedFrom(pairs, Mobile);
    MobileSchemaAgrees(collected[Mobile]);
    if p.pan.Some? {
      assert p.pan == PanSchema(collected[Pan]);
      CollectedFrom(pairs, Pan);
      PanSchemaAgrees(collected[Pan]);
    }
  }

  /** Only the name and the mobile decide whether a row is sound: some name is left after splitting, and
      the last mapped mobile is a valid number. A bad e-mail, PAN or PIN code never fails a row. */
  lemma SoundIff(cells: Cells, columns: Columns)
    ensures var found := Collect(RowPairs(cells, columns, |columns|));
            Sound(cells, columns) <==>
              && Mobile in found && IndianMobile(found[Mobile]).Some?
              && FirstName in found && found[FirstName] != ""
              && (' ' in found[FirstName] && LastName !in found ==> SplitFullName(found[FirstName]).0 != "")
  {
    hide IndianMobile, SplitFullName, RowPairs, Collect, CheckRest;
  }

  // ---------------------------------------------------------------------------
  // The candidate pool
  // ---------------------------------------------------------------------------

  const POOL_CAP: nat := 5000
  const NAME_CAP: nat := 40

  /** What the file is searched for. */
  datatype Keys = Keys(mobiles: set<string>, pans: set<string>, names: seq<string>)

  const NO_KEYS := Keys({}, {}, [])

  function AddNames(names: seq<string>, words: seq<string>): seq<string>
    decreases |words|
  {
    if words == [] then names
    else
      var token := Lower(words[0]);
      AddNames(if |words[0]| >= 3 && token !in names then names + [token] else names, words[1..])
  }

  function AddKey(keys: Keys, pair: (Field, string)): Keys {
    match pair.0
    case Mobile =>
      var digits := Last(Keep(pair.1, IsDigit), 10);
      if |digits| == 10 then keys.(mobiles := keys.mobiles + {digits}) else keys
    case Pan => keys.(pans := keys.pans + {Upper(pair.1)})
    case FirstName => keys.(names := AddNames(keys.names, Names.Words(pair.1, "")))
    case LastName => keys.(names := AddNames(keys.names, Names.Words(pair.1, "")))
    case _ => keys
  }

  function AddKeys(keys: Keys, pairs: Pairs): Keys {
    if pairs == [] then keys else AddKey(AddKeys(keys, pairs[..|pairs| - 1]), pairs[|pairs| - 1])
  }

  function FileKeys(rows: seq<Cells>, columns: Columns): Keys {
    if rows == [] then NO_KEYS
    else AddKeys(FileKeys(rows[..|rows| - 1], columns), RowPairs(rows[|rows| - 1], columns, |columns|))
  }

  predicate Contains(s: string, part: string) {
    exists i :: 0 <= i <= |s| && part <= s[i..]
  }

  predicate NameMatches(lead: Lead, names: seq<string>) {
    exists token <- (if |names| <= NAME_CAP then names else names[..NAME_CAP]) ::
      Contains(Lower(lead.person.firstName), token)
      || (lead.person.lastName.Some? && Contains(Lower(lead.person.lastName.value), token))
  }

  function InPool(keys: Keys): Lead -> bool {
    (lead: Lead) =>
      && !lead.deleted
      && (|| (lead.person.mobile.Some? && lead.person.mobile.value in keys.mobiles)
          || (lead.person.pan.Some? && lead.person.pan.value in keys.pans)
          || NameMatches(lead, keys.names))
  }

  function Undeleted(): Lead -> bool {
    (lead: Lead) => !lead.deleted
  }

  function AsCandidates(leads: seq<Lead>): (candidates: seq<Matching.Candidate>)
    ensures |candidates| == |leads|
  {
    seq(|leads|, i requires 0 <= i < |leads| => Matching.Candidate(leads[i].id, leads[i].person))
  }

  function Take<T>(xs: seq<T>, n: nat): seq<T> {
    if |xs| <= n then xs else xs[..n]
  }

  /** The query, with its cap; the book stands in for the order the database returns rows in. */
  function Pool(rows: seq<Cells>, columns: Columns, book: seq<Lead>): seq<Matching.Candidate> {
    AsCandidates(Take(Select(book, InPool(FileKeys(rows, columns))), POOL_CAP))
  }

  method LoadCandidatePool(rows: seq<Cells>, columns: Columns, book: seq<Lead>) returns (candidates: seq<Matching.Candidate>)
    ensures candidates == Pool(rows, columns, book)
  {
    hide RowPairs, FileKeys, AddKey, AddKeys, CellAt, InPool, Select;
    var keys := NO_KEYS;
    FileKeysNone(columns);
    for r := 0 to |rows|
      invariant keys == FileKeys(rows[..r], columns)
    {
      RowKeysNone(keys, rows[r], columns);
      for c := 0 to |columns|
        invariant keys == AddKeys(FileKeys(rows[..r], columns), RowPairs(rows[r], columns, c))
      {
        RowKeysNext(FileKeys(rows[..r], columns), rows[r], columns, c);
        var value := CellAt(rows[r], c);
        if columns[c].Some? && value != [] {
          keys := AddKey(keys, (columns[c].value, value));
        }
      }
      FileKeysNext(rows, columns, r);
    }
    assert rows[..|rows|] == rows;
    candidates := AsCandidates(Take(Select(book, InPool(keys)), POOL_CAP));
  }

  lemma FileKeysNone(columns: Columns)
    ensures FileKeys([], columns) == NO_KEYS
  {
  }

  lemma FileKeysNext(rows: seq<Cells>, columns: Columns, r: nat)
    requires r < |rows|
    ensures FileKeys(rows[..r + 1], columns) == AddKeys(FileKeys(rows[..r], columns), RowPairs(rows[r], columns, |columns|))
  {
    hide AddKeys, RowPairs;
    var more := rows[..r + 1];
    assert more[..|more| - 1] == rows[..r] && more[|more| - 1] == rows[r];
  }

  lemma RowKeysNone(keys: Keys, cells: Cells, columns: Columns)
    ensures AddKeys(keys, RowPairs(cells, columns, 0)) == keys
  {
  }

  lemma RowKeysNext(keys: Keys, cells: Cells, columns: Columns, c: nat)
    requires c < |columns|
    ensures AddKeys(keys, RowPairs(cells, columns, c + 1))
         == if columns[c].Some? && CellAt(cells, c) != []
            then AddKey(AddKeys(keys, RowPairs(cells, columns, c)), (columns[c].value, CellAt(cells, c)))
            else AddKeys(keys, RowPairs(cells, columns, c))
  {
    hide AddKey, CellAt;
    var before := RowPairs(cells, columns, c);
    if columns[c].Some? && CellAt(cells, c) != [] {
      var pair := (columns[c].value, CellAt(cells, c));
      assert (before + [pair])[..|before|] == before;
    } else {
      assert RowPairs(cells, columns, c + 1) == before + [] == before;
    }
  }

  // ---------------------------------------------------------------------------
  // The narrowed pool loses no identity match
  // ---------------------------------------------------------------------------

  ghost predicate KeysGrow(a: Keys, b: Keys) {
    a.mobiles <= b.mobiles && a.pans <= b.pans
  }

  lemma {:induction false} AddKeysHas(keys: Keys, pairs: Pairs, pair: (Field, string))
    ensures KeysGrow(keys, AddKeys(keys, pairs))
    ensures pair in pairs && pair.0.Pan? ==> Upper(pair.1) in AddKeys(keys, pairs).pans
    ensures pair in pairs && pair.0.Mobile? && |Keep(pair.1, IsDigit)| >= 10 ==>
              Last(Keep(pair.1, IsDigit), 10) in AddKeys(keys, pairs).mobiles
  {
    if pairs != [] {
      var before, last := pairs[..|pairs| - 1], pairs[|pairs| - 1];
      AddKeysHas(keys, before, pair);
      assert pairs == before + [last];
    }
  }

  lemma {:induction false} FileKeysHas(rows: seq<Cells>, columns: Columns, i: nat, pair: (Field, string))
    requires i < |rows| && pair in RowPairs(rows[i], columns, |columns|)
    ensures pair.0.Pan? ==> Upper(pair.1) in FileKeys(rows, columns).pans
    ensures pair.0.Mobile? && |Keep(pair.1, IsDigit)| >= 10 ==>
              Last(Keep(pair.1, IsDigit), 10) in FileKeys(rows, columns).mobiles
    decreases |rows|
  {
    hide AddKeys, RowPairs, Upper, Last, Keep;
    var last := |rows| - 1;
    AddKeysHas(FileKeys(rows[..last], columns), RowPairs(rows[last], columns, |columns|), pair);
    if i < last {
      FileKeysHas(rows[..last], columns, i, pair);
    }
  }

  lemma {:induction false} RowPairsTrimmed(cells: Cells, columns: Columns, n: nat, pair: (Field, string))
    requires n <= |columns| && pair in RowPairs(cells, columns, n)
    ensures exists raw :: pair.1 == Trim(raw)
  {
    var value := CellAt(cells, n - 1);
    if pair in RowPairs(cells, columns, n - 1) {
      RowPairsTrimmed(cells, columns, n - 1, pair);
    } else {
      assert pair.1 == value && value == Trim(cells[n - 1]);
    }
  }

  /** The mobile and PAN of every sound row are among the keys the pool is loaded by. */
  lemma SoundRowKeys(rows: seq<Cells>, columns: Columns, i: nat)
    requires i < |rows| && Sound(rows[i], columns)
    ensures var p := RowPerson(rows[i], columns);
            && p.mobile.Some? && p.mobile.value in FileKeys(rows, columns).mobiles
            && (p.pan.Some? ==> p.pan.value in FileKeys(rows, columns).pans)
  {
    hide IndianMobile, PanSchema, RowPairs, FileKeys, RowPerson, Sound, NormaliseMobile, Trim;
    var p := RowPerson(rows[i], columns);
    SoundRow(rows[i], columns);
    var raw :| (Mobile, raw) in RowPairs(rows[i], columns, |columns|) && IndianMobile(raw) == p.mobile;
    MobileKey(raw);
    FileKeysHas(rows, columns, i, (Mobile, raw));
    if p.pan.Some? {
      var cell :| (Pan, cell) in RowPairs(rows[i], columns, |columns|) && PanSchema(cell) == p.pan;
      FileKeysHas(rows, columns, i, (Pan, cell));
      RowPairsTrimmed(rows[i], columns, |columns|, (Pan, cell));
      var original :| cell == Trim(original);
      TrimTrim(original);
      PanKey(cell);
    }
  }

  lemma MobileKey(raw: string)
    requires IndianMobile(raw).Some?
    ensures |Keep(raw, IsDigit)| >= 10 && Last(Keep(raw, IsDigit), 10) == IndianMobile(raw).value
  {
    MobileSchemaAgrees(raw);
  }

  lemma PanKey(cell: string)
    requires PanSchema(cell).Some? && Trim(cell) == cell
    ensures Upper(cell) == PanSchema(cell).value
  {
  }

  lemma {:induction false} TrimEndStops(s: string)
    ensures TrimEnd(TrimEnd(s)) == TrimEnd(s)
    ensures s != [] && !IsSpace(s[0]) ==> TrimEnd(s) != [] && TrimEnd(s)[0] == s[0]
  {
    if s != [] && IsSpace(s[|s| - 1]) {
      TrimEndStops(s[..|s| - 1]);
    }
  }

  lemma TrimTrim(s: string)
    ensures Trim(Trim(s)) == Trim(s)
  {
    TrimStartIsSuffix(s);
    TrimEndStops(TrimStart(s));
  }

  /** Stored keys are what the edge schemas produce. */
  ghost predicate Canonical(book: seq<Lead>) {
    forall lead <- book ::
      && (lead.person.mobile.Some? ==> IsMobile(lead.person.mobile.value))
      && (lead.person.pan.Some? ==> PanShaped(lead.person.pan.value))
  }

  lemma CanonicalIdentity(p: Matching.Person, lead: Lead, book: seq<Lead>)
    requires Canonical(book) && lead in book
    requires p.mobile.Some? && IsMobile(p.mobile.value) && (p.pan.Some? ==> PanShaped(p.pan.value))
    ensures Matching.SameIdentity(p, lead.person) <==>
            lead.person.mobile == p.mobile || (p.pan.Some? && lead.person.pan == p.pan)
  {
    StoredMobile(p.mobile.value);
    if p.pan.Some? { StoredPan(p.pan.value); }
    if lead.person.mobile.Some? { StoredMobile(lead.person.mobile.value); }
    if lead.person.pan.Some? { StoredPan(lead.person.pan.value); }
  }

  /** What the query would return past its cap. */
  function BeyondCap(rows: seq<Cells>, columns: Columns, book: seq<Lead>): seq<Lead> {
    var hits := Select(book, InPool(FileKeys(rows, columns)));
    if |hits| <= POOL_CAP then [] else hits[POOL_CAP..]
  }

  /** A lead that is the same person as a sound row is in the pool, unless it lies beyond the cap. */
  lemma LostOnlyBeyondCap(rows: seq<Cells>, columns: Columns, book: seq<Lead>, i: nat, lead: Lead)
    requires Canonical(book) && i < |rows| && Sound(rows[i], columns)
    requires lead in book && !lead.deleted && Matching.SameIdentity(RowPerson(rows[i], columns), lead.person)
    ensures lead in BeyondCap(rows, columns, book) || exists c <- Pool(rows, columns, book) :: c.person == lead.person
  {
    hide Sound, RowPerson, FileKeys, NameMatches, Matching.SameIdentity;
    var p := RowPerson(rows[i], columns);
    var keys := FileKeys(rows, columns);
    var hits, pool := Select(book, InPool(keys)), Pool(rows, columns, book);
    SelectElements(book, InPool(keys));
    SoundRowKeys(rows, columns, i);
    SoundRow(rows[i], columns);
    CanonicalIdentity(p, lead, book);
    assert lead in hits;
    var k :| 0 <= k < |hits| && hits[k] == lead;
    if k < POOL_CAP {
      assert pool[k].person == lead.person && pool[k] in pool;
    } else {
      assert hits[POOL_CAP..][k - POOL_CAP] == lead;
    }
  }

  lemma PoolIsFromBook(rows: seq<Cells>, columns: Columns, book: seq<Lead>)
    ensures forall c <- Pool(rows, columns, book) :: exists lead <- book :: !lead.deleted && lead.person == c.person
    ensures forall lead <- BeyondCap(rows, columns, book) :: lead in book && !lead.deleted
    ensures |Select(book, InPool(FileKeys(rows, columns)))| <= POOL_CAP ==> BeyondCap(rows, columns, book) == []
  {
    hide FileKeys, NameMatches;
    var hits, pool := Select(book, InPool(FileKeys(rows, columns))), Pool(rows, columns, book);
    SelectElements(book, InPool(FileKeys(rows, columns)));
    forall c | c in pool ensures exists lead <- book :: !lead.deleted && lead.person == c.person {
      var k :| 0 <= k < |pool| && pool[k] == c;
      assert hits[k] in hits && hits[k].person == c.person;
    }
    forall lead | lead in BeyondCap(rows, columns, book) ensures lead in book && !lead.deleted {
      assert lead in hits;
    }
  }

  /** What a sound row finds in the whole undeleted book, it finds in the pool or beyond the cap: the pool
      loses exactly the identity matches the query did not return. */
  lemma PoolLosesBeyondCap(rows: seq<Cells>, columns: Columns, book: seq<Lead>, i: nat)
    requires Canonical(book) && i < |rows| && Sound(rows[i], columns)
    ensures var p := RowPerson(rows[i], columns);
            (exists lead <- book :: !lead.deleted && Matching.SameIdentity(p, lead.person))
            <==> ((exists c <- Pool(rows, columns, book) :: Matching.SameIdentity(p, c.person))
                  || exists lead <- BeyondCap(rows, columns, book) :: Matching.SameIdentity(p, lead.person))
  {
    hide Sound, RowPerson, FileKeys, Pool, BeyondCap, Select, Matching.SameIdentity;
    var p := RowPerson(rows[i], columns);
    PoolIsFromBook(rows, columns, book);
    if lead :| lead in book && !lead.deleted && Matching.SameIdentity(p, lead.person) {
      LostOnlyBeyondCap(rows, columns, book, i, lead);
    }
  }

  /** As long as the cap is not hit, a sound row finds in the pool exactly the identity matches it
      would find in the whole undeleted book. */
  lemma PoolLosesNoIdentity(rows: seq<Cells>, columns: Columns, book: seq<Lead>, i: nat)
    requires Canonical(book) && i < |rows| && Sound(rows[i], columns)
    requires |Select(book, InPool(FileKeys(rows, columns)))| <= POOL_CAP
    ensures var p := RowPerson(rows[i], columns);
            ((exists c <- Pool(rows, columns, book) :: Matching.SameIdentity(p, c.person))
             <==> (exists lead <- book :: !lead.deleted && Matching.SameIdentity(p, lead.person)))
  {
    hide Sound, RowPerson, FileKeys, Pool, Select, InPool, Matching.SameIdentity;
    PoolLosesBeyondCap(rows, columns, book, i);
    PoolIsFromBook(rows, columns, book);
  }

  /** So the suggestion to skip a row is the one a full scan would make, or the only reason for it lies
      beyond the cap. */
  lemma NarrowPoolDecides(rows: seq<Cells>, columns: Columns, book: seq<Lead>, i: nat)
    requires Canonical(book) && i < |rows| && Sound(rows[i], columns)
    ensures var p := RowPerson(rows[i], columns);
            var narrow := Matching.FindMatches(p, Pool(rows, columns, book), 1);
            var full := Matching.FindMatches(p, AsCandidates(Select(book, Undeleted())), 1);
            (Matching.SuggestDecision(Matching.Best(full)) == Matching.Skip
             <==> (Matching.SuggestDecision(Matching.Best(narrow)) == Matching.Skip
                   || exists lead <- BeyondCap(rows, columns, book) :: Matching.SameIdentity(p, lead.person)))
  {
    hide Sound, RowPerson, FileKeys, Pool, BeyondCap, Matching.SameIdentity, Matching.FindMatches, Matching.SuggestDecision;
    var p := RowPerson(rows[i], columns);
    var all := Select(book, Undeleted());
    PoolLosesBeyondCap(rows, columns, book, i);
    Matching.SkipIffSameIdentity(p, Pool(rows, columns, book), 1);
    Matching.SkipIffSameIdentity(p, AsCandidates(all), 1);
    SelectElements(book, Undeleted());
    if lead :| lead in book && !lead.deleted && Matching.SameIdentity(p, lead.person) {
      assert lead in all;
      var k :| 0 <= k < |all| && all[k] == lead;
      assert AsCandidates(all)[k].person == lead.person && AsCandidates(all)[k] in AsCandidates(all);
    }
    if c :| c in AsCandidates(all) && Matching.SameIdentity(p, c.person) {
      var k :| 0 <= k < |all| && AsCandidates(all)[k] == c;
      assert all[k] in all && all[k].person == c.person;
    }
  }
}

/** Which cell of an import row each field is read from, said of the cells themselves, and what of it
    reaches the lead and the keys the candidate pool is loaded by. */
module ImportColumns {
  import opened Text
  import opened Identity
  import opened Sorting
  import opened ImportRows
  import Names
  import Matching

  /** Column `c` is mapped to this field and its cell is not blank. */
  ghost predicate Filled(cells: Cells, columns: Columns, field: Field, c: nat) {
    c < |columns| && c < |cells| && columns[c] == Some(field) && Trim(cells[c]) != ""
  }

  /** Of several filled columns of one field, the last one. */
  ghost predicate LastFilled(cells: Cells, columns: Columns, field: Field, c: nat) {
    Filled(cells, columns, field, c) && forall d: nat :: c < d ==> !Filled(cells, columns, field, d)
  }

  /** What the row says of a field. */
  ghost function CellOf(cells: Cells, columns: Columns, field: Field): Option<string> {
    if c: nat :| LastFilled(cells, columns, field, c) then Some(Trim(cells[c])) else None
  }

  function Read(cells: Cells, columns: Columns): map<Field, string> {
    Collect(RowPairs(cells, columns, |columns|))
  }

  lemma ReadsOneMore(cells: Cells, columns: Columns, n: nat)
    requires n < |columns|
    ensures var before := Collect(RowPairs(cells, columns, n));
            Collect(RowPairs(cells, columns, n + 1)) == (
              if columns[n].Some? && n < |cells| && Trim(cells[n]) != "" then before[columns[n].value := Trim(cells[n])] else before)
  {
    hide Trim, Collect;
    var before := RowPairs(cells, columns, n);
    if columns[n].Some? && n < |cells| && Trim(cells[n]) != "" {
      CollectSnoc(before, (columns[n].value, Trim(cells[n])));
    } else {
      assert RowPairs(cells, columns, n + 1) == before;
    }
  }

  lemma CollectSnoc(pairs: Pairs, pair: (Field, string))
    ensures Collect(pairs + [pair]) == Collect(pairs)[pair.0 := pair.1]
  {
    assert (pairs + [pair])[..|pairs|] == pairs;
  }

  /** The last filled column among the first `n`, if there is one, is where the field is read. */
  lemma {:induction false} ReadsUpTo(cells: Cells, columns: Columns, n: nat, field: Field) returns (last: Option<nat>)
    requires n <= |columns|
    ensures var found := Collect(RowPairs(cells, columns, n));
            match last
            case None => field !in found && forall d: nat :: d < n ==> !Filled(cells, columns, field, d)
            case Some(c) =>
              && c < n && Filled(cells, columns, field, c) && field in found && found[field] == Trim(cells[c])
              && forall d: nat :: c < d < n ==> !Filled(cells, columns, field, d)
  {
    hide Collect, RowPairs, Trim;
    if n == 0 {
      ReadsNone(cells, columns);
      last := None;
    } else {
      last := ReadsUpTo(cells, columns, n - 1, field);
      ReadsOneMore(cells, columns, n - 1);
      if Filled(cells, columns, field, n - 1) {
        last := Some(n - 1);
      }
    }
  }

  lemma ReadsNone(cells: Cells, columns: Columns)
    ensures Collect(RowPairs(cells, columns, 0)) == map[]
  {
  }

  /** A field is read exactly if one of its columns is filled, and then from the last such column. */
  lemma ReadsLastFilled(cells: Cells, columns: Columns, field: Field)
    ensures field in Read(cells, columns) <==> exists c: nat :: LastFilled(cells, columns, field, c)
    ensures forall c: nat :: LastFilled(cells, columns, field, c) ==> Read(cells, columns)[field] == Trim(cells[c])
    ensures Get(Read(cells, columns), field) == CellOf(cells, columns, field)
  {
    hide RowPairs, Collect, Trim;
    var last := ReadsUpTo(cells, columns, |columns|, field);
    if last.Some? {
      assert LastFilled(cells, columns, field, last.value);
    }
  }

  // ---------------------------------------------------------------------------
  // What reaches the lead
  // ---------------------------------------------------------------------------

  /** What every step after the reading leaves of a field other than the name. */
  lemma MappedFrom(cells: Cells, columns: Columns, field: Field)
    requires field != FirstName && field != LastName
    ensures Get(MapAndValidate(cells, columns).mapped, field) == Accepted(field, Get(Read(cells, columns), field))
  {
    hide SplitName, CheckMobile, CheckRest, Read, Accepted, Get;
    assert Read(cells, columns) == Collect(RowPairs(cells, columns, |columns|)) by { ReadIs(cells, columns); }
    hide RowPairs, Collect;
    var read := Read(cells, columns);
    SplitLeaves(read, field);
    MobileLeaves(SplitName(read), field);
    RestLeaves(CheckMobile(SplitName(read)).mapped, field);
  }

  lemma ReadIs(cells: Cells, columns: Columns)
    ensures Read(cells, columns) == Collect(RowPairs(cells, columns, |columns|))
  {
  }

  /** A mapped text as the lead takes it: a bad e-mail address, PAN or PIN code counts as none. */
  function Accepted(field: Field, read: Option<string>): Option<string> {
    if read.None? then None
    else match field
      case Email => if EmailShaped(read.value) then read else None
      case Pan => PanSchema(read.value)
      case Pincode => if |read.value| == 6 && AllDigits(read.value) && read.value[0] != '0' then read else None
      case Mobile => if IndianMobile(read.value).Some? then IndianMobile(read.value) else read
      case _ => read
  }

  lemma SplitLeaves(read: map<Field, string>, field: Field)
    requires field != FirstName && field != LastName
    ensures Get(SplitName(read), field) == Get(read, field)
  {
    hide SplitFullName;
  }

  lemma MobileLeaves(split: map<Field, string>, field: Field)
    ensures Get(CheckMobile(split).mapped, field) == if field == Mobile then Accepted(Mobile, Get(split, Mobile)) else Get(split, field)
  {
    hide IndianMobile;
  }

  lemma RestLeaves(checked: map<Field, string>, field: Field)
    ensures Get(CheckRest(checked), field) == if field == Mobile then Get(checked, Mobile) else Accepted(field, Get(checked, field))
  {
    hide EmailShaped, PanSchema, IndianMobile;
  }

  /** Fields taken as they stand: the last filled cell, trimmed, or nothing; and the PIN code if it is one. */
  lemma PlainFields(cells: Cells, columns: Columns, field: Field)
    requires field in {City, State, ProductInterest, EstimatedValue, Notes, Pincode}
    ensures Get(MapAndValidate(cells, columns).mapped, field)
         == var cell := CellOf(cells, columns, field);
            if field == Pincode && cell.Some? && !(|cell.value| == 6 && AllDigits(cell.value) && cell.value[0] != '0') then None else cell
  {
    hide MapAndValidate, Read, Trim, CellOf, Get;
    ReadsLastFilled(cells, columns, field);
    MappedFrom(cells, columns, field);
  }

  /** The contact details of the lead are what the row says, in the schema's form; a bad e-mail address or PAN
      counts as none, and a bad number is kept as it was typed. */
  lemma PersonContacts(cells: Cells, columns: Columns)
    ensures var p := RowPerson(cells, columns);
            var mobile, email := CellOf(cells, columns, Mobile), CellOf(cells, columns, Email);
            var pan := CellOf(cells, columns, Pan);
            && p.mobile == (if mobile.Some? && IndianMobile(mobile.value).Some? then IndianMobile(mobile.value) else mobile)
            && p.email == (if email.Some? && EmailShaped(email.value) then email else None)
            && p.pan == (if pan.Some? then PanSchema(pan.value) else None)
            && p.city == CellOf(cells, columns, City)
  {
    hide MapAndValidate, Read, Trim, EmailShaped, PanSchema, IndianMobile, CellOf, Get;
    ReadsLastFilled(cells, columns, Mobile);
    ReadsLastFilled(cells, columns, Email);
    ReadsLastFilled(cells, columns, Pan);
    ReadsLastFilled(cells, columns, City);
    MappedFrom(cells, columns, Mobile);
    MappedFrom(cells, columns, Email);
    MappedFrom(cells, columns, Pan);
    MappedFrom(cells, columns, City);
  }

  /** The name of the lead is what the row says; but a first name with a space in it and no last name
      beside it is split. */
  lemma PersonName(cells: Cells, columns: Columns)
    ensures var p := RowPerson(cells, columns);
            var first, last := CellOf(cells, columns, FirstName), CellOf(cells, columns, LastName);
            (p.firstName, p.lastName) == (
              if first.None? then ("", last)
              else if last.None? && ' ' in first.value then SplitFullName(first.value)
              else (first.value, last))
  {
    hide Read, CellOf, CheckRest, CheckMobile, SplitName, Collect, RowPairs, Trim, SplitFullName;
    ReadIs(cells, columns);
    ReadsLastFilled(cells, columns, FirstName);
    ReadsLastFilled(cells, columns, LastName);
    var read := Read(cells, columns);
    SplitSplits(read);
    NamesKept(SplitName(read));
  }

  lemma SplitSplits(read: map<Field, string>)
    ensures var split := SplitName(read);
            var first, last := Get(read, FirstName), Get(read, LastName);
            (if FirstName in split then split[FirstName] else "", Get(split, LastName)) == (
              if first.None? then ("", last)
              else if last.None? && ' ' in first.value then SplitFullName(first.value)
              else (first.value, last))
  {
    hide SplitFullName;
  }

  lemma NamesKept(split: map<Field, string>)
    ensures var mapped := CheckRest(CheckMobile(split).mapped);
            && Get(mapped, FirstName) == Get(split, FirstName) && Get(mapped, LastName) == Get(split, LastName)
  {
    hide EmailShaped, PanSchema, IndianMobile;
  }

  /** What is wrong with a row, from its cells: no name is left, or the last filled mobile is missing or no number. */
  lemma ErrorsFromCells(cells: Cells, columns: Columns)
    ensures var first, last, mobile := CellOf(cells, columns, FirstName), CellOf(cells, columns, LastName), CellOf(cells, columns, Mobile);
            var unnamed := first.None? || (last.None? && ' ' in first.value && SplitFullName(first.value).0 == "");
            MapAndValidate(cells, columns).errors == (
              (if unnamed then [NameMissing] else [])
              + (if mobile.None? then [MobileMissing] else if IndianMobile(mobile.value).None? then [MobileInvalid] else []))
    ensures var first, last, mobile := CellOf(cells, columns, FirstName), CellOf(cells, columns, LastName), CellOf(cells, columns, Mobile);
            Sound(cells, columns) <==>
              && mobile.Some? && IndianMobile(mobile.value).Some?
              && first.Some? && (last.None? && ' ' in first.value ==> SplitFullName(first.value).0 != "")
  {
    hide Read, CellOf, CheckRest, SplitName, Collect, RowPairs, Trim, SplitFullName, IndianMobile;
    ReadIs(cells, columns);
    ReadsLastFilled(cells, columns, FirstName);
    ReadsLastFilled(cells, columns, LastName);
    ReadsLastFilled(cells, columns, Mobile);
    var read := Read(cells, columns);
    SplitSplits(read);
    SplitLeaves(read, Mobile);
    FilledCell(cells, columns, FirstName);
  }

  lemma FilledCell(cells: Cells, columns: Columns, field: Field)
    ensures CellOf(cells, columns, field) != Some("")
  {
    hide Trim;
  }

  // ---------------------------------------------------------------------------
  // Names and addresses as people type them
  // ---------------------------------------------------------------------------

  predicate Unspaced(s: string) {
    s != [] && forall i :: 0 <= i < |s| ==> !IsSpace(s[i]) && s[i] != '@'
  }

  /** An address is a local part, one at sign, a host with a dot inside it, and no white space anywhere. */
  lemma EmailShapedIff(s: string)
    ensures EmailShaped(s) <==>
              exists local: string, host: string, tld: string ::
                Unspaced(local) && Unspaced(host) && Unspaced(tld) && s == local + "@" + host + "." + tld
  {
    if EmailShaped(s) {
      var at :| 0 < at < |s| && s[at] == '@' && (forall i :: 0 <= i < |s| ==> !IsSpace(s[i]) && (s[i] == '@' ==> i == at))
        && exists dot :: at + 1 < dot < |s| - 1 && s[dot] == '.';
      var dot :| at + 1 < dot < |s| - 1 && s[dot] == '.';
      AddressParts(s, at, dot);
    }
    if local: string, host: string, tld: string :| Unspaced(local) && Unspaced(host) && Unspaced(tld) && s == local + "@" + host + "." + tld {
      PartsAddress(local, host, tld);
    }
  }

  lemma AddressParts(s: string, at: nat, dot: nat)
    requires 0 < at && at + 1 < dot < |s| - 1 && s[at] == '@' && s[dot] == '.'
    requires forall i :: 0 <= i < |s| ==> !IsSpace(s[i]) && (s[i] == '@' ==> i == at)
    ensures var local, host, tld := s[..at], s[at + 1..dot], s[dot + 1..];
            Unspaced(local) && Unspaced(host) && Unspaced(tld) && s == local + "@" + host + "." + tld
  {
    hide IsSpace;
  }

  lemma PartsAddress(local: string, host: string, tld: string)
    requires Unspaced(local) && Unspaced(host) && Unspaced(tld)
    ensures EmailShaped(local + "@" + host + "." + tld)
  {
    hide IsSpace;
    var s := local + "@" + host + "." + tld;
    var at, dot := |local|, |local| + 1 + |host|;
    assert !IsSpace('@') && !IsSpace('.') by { Marks(); }
    assert s[at] == '@' && s[dot] == '.' && at + 1 < dot < |s| - 1;
    forall i | 0 <= i < |s| ensures !IsSpace(s[i]) && (s[i] == '@' ==> i == at) {
      if i < at { assert s[i] == local[i]; }
      else if at < i < dot { assert s[i] == host[i - at - 1]; }
      else if dot < i { assert s[i] == tld[i - dot - 1]; }
    }
  }

  lemma Marks()
    ensures !IsSpace('@') && !IsSpace('.')
  {
  }

  lemma {:induction false} FirstComma(before: string, after: string)
    requires ',' !in before
    ensures IndexOf(before + "," + after, ',') == |before|
  {
    var s := before + "," + after;
    if before != [] {
      assert s[1..] == before[1..] + "," + after;
      FirstComma(before[1..], after);
    }
  }

  /** "Surname, Given": what is before the first comma is the last name. */
  lemma SplitAtComma(before: string, after: string)
    requires ',' !in before && Trim(before + "," + after) == before + "," + after
    requires Trim(before) != "" && Trim(after) != ""
    ensures SplitFullName(before + "," + after) == (Trim(after), Some(Trim(before)))
  {
    hide Names.Words, Names.Join, IndexOf;
    var s := before + "," + after;
    FirstComma(before, after);
    assert s[..|before|] == before && s[|before| + 1..] == after;
    assert before != [] by { assert Trim("") == ""; }
  }

  lemma {:induction false} NoComma(s: string)
    requires ',' !in s
    ensures IndexOf(s, ',') == |s| && CommasToSpaces(s) == s
  {
    if s != [] {
      assert s == [s[0]] + s[1..];
      NoComma(s[1..]);
    }
  }

  lemma {:induction false} OneWord(s: string, word: string)
    requires forall i :: 0 <= i < |s| ==> !IsSpace(s[i])
    requires word + s != []
    ensures Names.Words(s, word) == [word + s]
    decreases |s|
  {
    if s == [] {
      assert word + s == word;
    } else {
      assert word + s == (word + [s[0]]) + s[1..];
      OneWord(s[1..], word + [s[0]]);
    }
  }

  /** Without a comma: the first word is the first name, and the others, one space apart, are the last name. */
  lemma SplitAtSpace(first: string, rest: string)
    requires first != [] && forall i :: 0 <= i < |first| ==> !IsSpace(first[i])
    requires ',' !in first && ',' !in rest && Trim(first + " " + rest) == first + " " + rest
    ensures SplitFullName(first + " " + rest)
         == (first, if Names.Words(rest, "") == [] then None else Some(Names.Join(Names.Words(rest, ""))))
  {
    hide Names.Join, IndexOf, CommasToSpaces, Trim, IsSpace;
    var s := first + " " + rest;
    assert ',' !in s;
    NoComma(s);
    assert IsSpace(' ') by { SpaceIsSpace(); }
    Names.WordsAtSpace(first, ' ', rest, "");
    assert first + [' '] + rest == s;
    OneWord(first, "");
    assert "" + first == first;
    hide Names.Words;
    var tail := Names.Words(rest, "");
    assert ([first] + tail)[1..] == tail;
  }

  lemma SpaceIsSpace()
    ensures IsSpace(' ')
  {
  }

  // ---------------------------------------------------------------------------
  // What the candidate pool is loaded by
  // ---------------------------------------------------------------------------

  /** The row says this of the field, in whichever of the field's columns. */
  ghost predicate Says(cells: Cells, columns: Columns, field: Field, value: string) {
    exists c: nat :: Filled(cells, columns, field, c) && Trim(cells[c]) == value
  }

  lemma {:induction false} PairsSay(cells: Cells, columns: Columns, n: nat, pair: (Field, string))
    requires n <= |columns|
    ensures pair in RowPairs(cells, columns, n) <==> exists c: nat :: c < n && Filled(cells, columns, pair.0, c) && Trim(cells[c]) == pair.1
  {
    hide Trim;
    if n > 0 {
      PairsSay(cells, columns, n - 1, pair);
      if columns[n - 1] == Some(pair.0) && Filled(cells, columns, pair.0, n - 1) && Trim(cells[n - 1]) == pair.1 {
        assert pair in RowPairs(cells, columns, n);
      }
    }
  }

  /** The keys one mapped cell yields. */
  predicate Yields(field: Field, value: string, mobile: string) {
    field == Mobile && |mobile| == 10 && |Keep(value, IsDigit)| >= 10 && Keep(value, IsDigit)[|Keep(value, IsDigit)| - 10..] == mobile
  }

  lemma {:induction false} AddNamesHas(names: seq<string>, words: seq<string>, token: string)
    ensures token in AddNames(names, words) <==> token in names || exists word <- words :: |word| >= 3 && Lower(word) == token
    ensures names <= AddNames(names, words)
    ensures Distinct(names) ==> Distinct(AddNames(names, words))
    decreases |words|
  {
    hide Lower;
    if words != [] {
      var first := Lower(words[0]);
      var more := if |words[0]| >= 3 && first !in names then names + [first] else names;
      AddNamesHas(more, words[1..], token);
      assert words == [words[0]] + words[1..];
    }
  }

  ghost predicate NameToken(pair: (Field, string), token: string) {
    (pair.0 == FirstName || pair.0 == LastName) && exists word <- Names.Words(pair.1, "") :: |word| >= 3 && Lower(word) == token
  }

  lemma {:induction false} AddKeysIff(keys: Keys, pairs: Pairs, key: string)
    ensures var after := AddKeys(keys, pairs);
            && (key in after.mobiles <==> key in keys.mobiles || exists pair <- pairs :: Yields(pair.0, pair.1, key))
            && (key in after.pans <==> key in keys.pans || exists pair <- pairs :: pair.0 == Pan && Upper(pair.1) == key)
            && (key in after.names <==> key in keys.names || exists pair <- pairs :: NameToken(pair, key))
            && keys.names <= after.names && (Distinct(keys.names) ==> Distinct(after.names))
  {
    hide Keep, Upper, Names.Words, AddNames, NameToken, Distinct;
    if pairs != [] {
      var before, last := pairs[..|pairs| - 1], pairs[|pairs| - 1];
      AddKeysIff(keys, before, key);
      assert pairs == before + [last];
      AddKeyIff(AddKeys(keys, before), last, key);
      hide AddKey, Yields;
    }
  }

  lemma AddKeyIff(keys: Keys, pair: (Field, string), key: string)
    ensures var after := AddKey(keys, pair);
            && (key in after.mobiles <==> key in keys.mobiles || Yields(pair.0, pair.1, key))
            && (key in after.pans <==> key in keys.pans || (pair.0 == Pan && Upper(pair.1) == key))
            && (key in after.names <==> key in keys.names || NameToken(pair, key))
            && keys.names <= after.names && (Distinct(keys.names) ==> Distinct(after.names))
  {
    hide Keep, Upper, Names.Words, Distinct;
    AddNamesHas(keys.names, Names.Words(pair.1, ""), key);
  }

  /** The row has a mobile with these last ten digits, this PAN, or this word in a name. */
  ghost predicate SaysMobile(cells: Cells, columns: Columns, mobile: string) {
    exists value: string :: Says(cells, columns, Mobile, value) && Yields(Mobile, value, mobile)
  }

  ghost predicate SaysPan(cells: Cells, columns: Columns, pan: string) {
    exists value: string :: Says(cells, columns, Pan, value) && Upper(value) == pan
  }

  ghost predicate SaysName(cells: Cells, columns: Columns, token: string) {
    exists field: Field, value: string :: Says(cells, columns, field, value) && NameToken((field, value), token)
  }

  lemma RowKeysIff(keys: Keys, cells: Cells, columns: Columns, key: string)
    ensures var after := AddKeys(keys, RowPairs(cells, columns, |columns|));
            && (key in after.mobiles <==> key in keys.mobiles || SaysMobile(cells, columns, key))
            && (key in after.pans <==> key in keys.pans || SaysPan(cells, columns, key))
            && (key in after.names <==> key in keys.names || SaysName(cells, columns, key))
            && keys.names <= after.names && (Distinct(keys.names) ==> Distinct(after.names))
  {
    var pairs := RowPairs(cells, columns, |columns|);
    AddKeysIff(keys, pairs, key);
    forall field: Field, value: string ensures (field, value) in pairs <==> Says(cells, columns, field, value) {
      RowSays(cells, columns, (field, value));
    }
    hide Says, NameToken, Upper, RowPairs, AddKeys, Distinct, Keep;
    if SaysMobile(cells, columns, key) {
      var value :| Says(cells, columns, Mobile, value) && Yields(Mobile, value, key);
      assert (Mobile, value) in pairs;
    }
    if SaysPan(cells, columns, key) {
      var value :| Says(cells, columns, Pan, value) && Upper(value) == key;
      assert (Pan, value) in pairs;
    }
    if SaysName(cells, columns, key) {
      var field, value :| Says(cells, columns, field, value) && NameToken((field, value), key);
      assert (field, value) in pairs;
    }
    forall pair | pair in pairs ensures Says(cells, columns, pair.0, pair.1) {
      assert pair == (pair.0, pair.1);
    }
    forall pair | pair in pairs && NameToken(pair, key) ensures SaysName(cells, columns, key) {
      assert pair == (pair.0, pair.1);
    }
  }

  lemma RowSays(cells: Cells, columns: Columns, pair: (Field, string))
    ensures pair in RowPairs(cells, columns, |columns|) <==> Says(cells, columns, pair.0, pair.1)
  {
    PairsSay(cells, columns, |columns|, pair);
  }

  /** The pool is searched for exactly: the last ten digits of every mapped mobile that has ten, every mapped PAN in
      capitals, and every word of at least three letters of a mapped first or last name, in small letters; words
      are kept once, in the order the file has them. */
  lemma {:induction false} FileKeysIff(rows: seq<Cells>, columns: Columns, key: string)
    ensures var keys := FileKeys(rows, columns);
            && (key in keys.mobiles <==> exists cells <- rows :: SaysMobile(cells, columns, key))
            && (key in keys.pans <==> exists cells <- rows :: SaysPan(cells, columns, key))
            && (key in keys.names <==> exists cells <- rows :: SaysName(cells, columns, key))
            && Distinct(keys.names) && forall n: nat :: n <= |rows| ==> FileKeys(rows[..n], columns).names <= keys.names
    decreases |rows|
  {
    hide SaysMobile, SaysPan, SaysName, RowPairs, AddKeys, Distinct;
    if rows == [] {
      assert Distinct(NO_KEYS.names) by { NoneDistinct(); }
    } else {
      var before, cells := rows[..|rows| - 1], rows[|rows| - 1];
      assert rows == before + [cells];
      FileKeysIff(before, columns, key);
      RowKeysIff(FileKeys(before, columns), cells, columns, key);
      forall n: nat | n <= |rows| ensures FileKeys(rows[..n], columns).names <= FileKeys(rows, columns).names {
        if n < |rows| {
          assert rows[..n] == before[..n];
        } else {
          assert rows[..n] == rows;
        }
      }
    }
  }

  lemma NoneDistinct()
    ensures Distinct<string>([])
  {
  }

  /** The query asks for undeleted leads that have one of the mobiles, one of the PANs, or one of the first forty words
      somewhere in a name; and it returns them in the book's order up to five thousand. */
  lemma PoolIs(rows: seq<Cells>, columns: Columns, book: seq<Lead>, lead: Lead)
    ensures var keys := FileKeys(rows, columns);
            var hits := Select(book, InPool(keys));
            && (lead in hits <==>
                  && lead in book && !lead.deleted
                  && (|| (lead.person.mobile.Some? && lead.person.mobile.value in keys.mobiles)
                      || (lead.person.pan.Some? && lead.person.pan.value in keys.pans)
                      || exists i, at: nat :: 0 <= i < |keys.names| && i < 40 && HasAt(lead.person, keys.names[i], at)))
            && |Pool(rows, columns, book)| == (if |hits| <= 5000 then |hits| else 5000)
            && forall i :: 0 <= i < |Pool(rows, columns, book)| ==> Pool(rows, columns, book)[i] == Matching.Candidate(hits[i].id, hits[i].person)
  {
    hide FileKeys, Lower;
    var keys := FileKeys(rows, columns);
    SelectElements(book, InPool(keys));
    NameMatchesIff(lead, keys.names);
    hide NameMatches, HasAt;
  }

  /** The word stands at this place of the first or the last name, whatever the case. */
  ghost predicate HasAt(person: Matching.Person, token: string, at: nat) {
    || (at <= |person.firstName| && token <= Lower(person.firstName)[at..])
    || (person.lastName.Some? && at <= |person.lastName.value| && token <= Lower(person.lastName.value)[at..])
  }

  lemma ContainedAt(person: Matching.Person, token: string)
    ensures (exists at: nat :: HasAt(person, token, at)) <==>
              (Contains(Lower(person.firstName), token) || (person.lastName.Some? && Contains(Lower(person.lastName.value), token)))
  {
    hide Lower;
    if i :| 0 <= i <= |Lower(person.firstName)| && token <= Lower(person.firstName)[i..] {
      assert HasAt(person, token, i);
    }
    if person.lastName.Some? {
      if i :| 0 <= i <= |Lower(person.lastName.value)| && token <= Lower(person.lastName.value)[i..] {
        assert HasAt(person, token, i);
      }
    }
  }

  lemma NameMatchesIff(lead: Lead, names: seq<string>)
    ensures NameMatches(lead, names) <==> exists i, at: nat :: 0 <= i < |names| && i < 40 && HasAt(lead.person, names[i], at)
  {
    hide Contains, HasAt, Lower;
    var firstForty := if |names| <= NAME_CAP then names else names[..NAME_CAP];
    if NameMatches(lead, names) {
      var token :| token in firstForty && (Contains(Lower(lead.person.firstName), token)
        || (lead.person.lastName.Some? && Contains(Lower(lead.person.lastName.value), token)));
      var i :| 0 <= i < |firstForty| && firstForty[i] == token;
      ContainedAt(lead.person, token);
      var at: nat :| HasAt(lead.person, token, at);
      assert HasAt(lead.person, names[i], at);
    }
    if i, at: nat :| 0 <= i < |names| && i < 40 && HasAt(lead.person, names[i], at) {
      assert firstForty[i] in firstForty && firstForty[i] == names[i];
      ContainedAt(lead.person, names[i]);
    }
  }
}

/** The identity keys: the normalisers of `packages/contracts/src/matching.ts` and the edge schemas of
    `packages/contracts/src/common.ts`, and that they agree. Letter case is mapped for ASCII letters. */
module Identity {
  import opened Text

  function Last(s: string, n: nat): string {
    if |s| <= n then s else s[|s| - n..]
  }

  function UpperChar(c: char): char {
    if 'a' <= c <= 'z' then c - 'a' + 'A' else c
  }

  function LowerChar(c: char): char {
    if 'A' <= c <= 'Z' then c - 'A' + 'a' else c
  }

  function Upper(s: string): (u: string)
    ensures |u| == |s|
  {
    seq(|s|, i requires 0 <= i < |s| => UpperChar(s[i]))
  }

  function Lower(s: string): (l: string)
    ensures |l| == |s|
  {
    seq(|s|, i requires 0 <= i < |s| => LowerChar(s[i]))
  }

  predicate NotSpace(c: char) {
    !IsSpace(c)
  }

  predicate NotSpaceOrHyphen(c: char) {
    !IsSpace(c) && c != '-'
  }

  /** The last ten digits, when there are that many. */
  function NormaliseMobile(value: Option<string>): Option<string> {
    if value.None? || value.value == [] then None
    else
      var digits := Keep(value.value, IsDigit);
      if |digits| < 10 then None else Some(Last(digits, 10))
  }

  predicate PanShaped(s: string) {
    |s| == 10 && (forall i :: 0 <= i < 5 ==> IsUpper(s[i])) && AllDigits(s[5..9]) && IsUpper(s[9])
  }

  function NormalisePan(value: Option<string>): Option<string> {
    if value.None? || value.value == [] then None
    else
      var upper := Keep(Upper(Trim(value.value)), NotSpace);
      if PanShaped(upper) then Some(upper) else None
  }

  // ---------------------------------------------------------------------------
  // What the edge accepts
  // ---------------------------------------------------------------------------

  predicate IsMobile(s: string) {
    |s| == 10 && AllDigits(s) && '6' <= s[0] <= '9'
  }

  function WithoutPlus(s: string): string {
    if s != [] && s[0] == '+' then s[1..] else s
  }

  function WithoutCountryCode(digits: string): string {
    if |digits| == 12 && digits[..2] == "91" then digits[2..]
    else if |digits| == 11 && digits[0] == '0' then digits[1..]
    else digits
  }

  /** `indianMobileSchema`: a country code or trunk prefix goes only when a whole number is left. */
  function IndianMobile(value: string): Option<string> {
    var number := WithoutCountryCode(WithoutPlus(Keep(Trim(value), NotSpaceOrHyphen)));
    if IsMobile(number) then Some(number) else None
  }

  function PanSchema(value: string): Option<string> {
    var upper := Upper(Trim(value));
    if PanShaped(upper) then Some(upper) else None
  }

  // ---------------------------------------------------------------------------
  // They agree
  // ---------------------------------------------------------------------------

  lemma {:induction false} KeepKeep(s: string, p: char -> bool, q: char -> bool)
    requires forall c :: q(c) ==> p(c)
    ensures Keep(Keep(s, p), q) == Keep(s, q)
  {
    if s != [] {
      KeepKeep(s[1..], p, q);
      assert q(s[0]) ==> p(s[0]);
      if p(s[0]) {
        assert ([s[0]] + Keep(s[1..], p))[1..] == Keep(s[1..], p);
      } else {
        assert [] + Keep(s[1..], p) == Keep(s[1..], p);
      }
    }
  }

  lemma {:induction false} KeepAll(s: string, p: char -> bool)
    ensures |Keep(s, p)| <= |s|
    ensures Keep(s, p) == s <==> forall c <- s :: p(c)
  {
    if s != [] {
      KeepAll(s[1..], p);
      assert s == [s[0]] + s[1..];
    }
  }

  lemma {:induction false} KeepTrimStart(s: string, p: char -> bool)
    requires forall c :: p(c) ==> !IsSpace(c)
    ensures Keep(TrimStart(s), p) == Keep(s, p)
  {
    if s != [] && IsSpace(s[0]) {
      KeepTrimStart(s[1..], p);
    }
  }

  lemma {:induction false} KeepAppend(s: string, t: string, p: char -> bool)
    ensures Keep(s + t, p) == Keep(s, p) + Keep(t, p)
  {
    if s == [] {
      assert s + t == t;
    } else {
      KeepAppend(s[1..], t, p);
      var head := if p(s[0]) then [s[0]] else [];
      assert (s + t)[0] == s[0] && (s + t)[1..] == s[1..] + t;
      assert Keep(s + t, p) == head + Keep(s[1..] + t, p);
      assert Keep(s, p) == head + Keep(s[1..], p);
      assert head + (Keep(s[1..], p) + Keep(t, p)) == (head + Keep(s[1..], p)) + Keep(t, p);
    }
  }

  lemma {:induction false} KeepTrimEnd(s: string, p: char -> bool)
    requires forall c :: p(c) ==> !IsSpace(c)
    ensures Keep(TrimEnd(s), p) == Keep(s, p)
  {
    if s != [] && IsSpace(s[|s| - 1]) {
      var before, last := s[..|s| - 1], s[|s| - 1];
      KeepTrimEnd(before, p);
      KeepAppend(before, [last], p);
      assert s == before + [last] && Keep([last], p) == [];
    }
  }

  lemma KeepTrim(s: string, p: char -> bool)
    requires forall c :: p(c) ==> !IsSpace(c)
    ensures Keep(Trim(s), p) == Keep(s, p)
  {
    KeepTrimEnd(TrimStart(s), p);
    KeepTrimStart(s, p);
  }

  lemma KeepWithoutPlus(s: string)
    ensures Keep(WithoutPlus(s), IsDigit) == Keep(s, IsDigit)
  {
  }

  lemma AcceptedShape(digits: string)
    requires IsMobile(WithoutCountryCode(digits))
    ensures |digits| >= 10 && AllDigits(digits) && Last(digits, 10) == WithoutCountryCode(digits)
  {
    var number := WithoutCountryCode(digits);
    var cut := |digits| - 10;
    assert number == digits[cut..];
    forall i | 0 <= i < |digits| ensures IsDigit(digits[i]) {
      if i >= cut {
        assert digits[i] == number[i - cut];
      } else {
        assert cut == 2 ==> digits[i] == digits[..2][i] == "91"[i];
      }
    }
  }

  /** Every number the schema accepts has that same number as its last ten digits. */
  lemma MobileSchemaAgrees(value: string)
    requires IndianMobile(value).Some?
    ensures NormaliseMobile(Some(value)) == IndianMobile(value)
    ensures NormaliseMobile(IndianMobile(value)) == IndianMobile(value)
    ensures IsMobile(IndianMobile(value).value)
  {
    hide Trim, Keep, WithoutPlus;
    var kept := Keep(Trim(value), NotSpaceOrHyphen);
    var digits := WithoutPlus(kept);
    AcceptedShape(digits);
    hide WithoutCountryCode;
    KeepAll(digits, IsDigit);
    assert Keep(value, IsDigit) == digits by {
      KeepTrim(value, IsDigit);
      KeepKeep(Trim(value), NotSpaceOrHyphen, IsDigit);
      KeepWithoutPlus(kept);
    }
    assert value != [] by {
      KeepAll(value, IsDigit);
    }
    StoredMobile(IndianMobile(value).value);
  }

  /** A stored mobile is its own key. */
  lemma StoredMobile(number: string)
    requires IsMobile(number)
    ensures NormaliseMobile(Some(number)) == Some(number)
  {
    KeepAll(number, IsDigit);
  }

  lemma PanHasNoSpace(pan: string)
    requires PanShaped(pan)
    ensures forall c <- pan :: !IsSpace(c)
  {
    assert forall i :: 5 <= i < 9 ==> pan[i] == pan[5..9][i - 5];
  }

  /** Every PAN the schema accepts is found again by the normaliser, from the input and as stored. */
  lemma PanSchemaAgrees(value: string)
    requires PanSchema(value).Some?
    ensures NormalisePan(Some(value)) == PanSchema(value)
    ensures NormalisePan(PanSchema(value)) == PanSchema(value)
    ensures PanShaped(PanSchema(value).value)
  {
    var upper := Upper(Trim(value));
    PanHasNoSpace(upper);
    KeepAll(upper, NotSpace);
    assert value != [];
    StoredPan(upper);
  }

  lemma StoredPan(pan: string)
    requires PanShaped(pan)
    ensures NormalisePan(Some(pan)) == Some(pan)
  {
    PanHasNoSpace(pan);
    assert pan[0] in pan && pan[9] in pan;
    assert Trim(pan) == pan;
    assert forall i :: 5 <= i < 9 ==> pan[i] == pan[5..9][i - 5];
    assert Upper(pan) == pan;
    KeepAll(pan, NotSpace);
  }

  // ---------------------------------------------------------------------------
  // Exactly what is accepted
  // ---------------------------------------------------------------------------

  /** A mobile number is accepted exactly as itself or behind a 0, a 91 or a plus sign, white space and hyphens
      anywhere; and it is stored as the ten digits. */
  lemma MobileAcceptedIff(value: string, number: string)
    ensures var typed := Keep(value, NotSpaceOrHyphen);
            IndianMobile(value) == Some(number) <==>
              && |number| == 10 && (forall c <- number :: '0' <= c <= '9') && number[0] in "6789"
              && (typed == number || typed == "0" + number || typed == "91" + number
                  || typed == "+" + number || typed == "+0" + number || typed == "+91" + number)
  {
    hide Keep, Trim, WithoutPlus, WithoutCountryCode, NotSpaceOrHyphen;
    assert Keep(Trim(value), NotSpaceOrHyphen) == Keep(value, NotSpaceOrHyphen) by { NoHyphenNoSpace(); KeepTrim(value, NotSpaceOrHyphen); }
    var typed := Keep(value, NotSpaceOrHyphen);
    assert forall i :: 0 <= i < |number| ==> number[i] in number;
    if IsMobile(number) {
      PrefixesGo(typed, number);
    }
  }

  lemma NoHyphenNoSpace()
    ensures forall c :: NotSpaceOrHyphen(c) ==> !IsSpace(c)
  {
  }

  lemma PrefixesGo(typed: string, number: string)
    requires IsMobile(number)
    ensures WithoutCountryCode(WithoutPlus(typed)) == number <==>
              (typed == number || typed == "0" + number || typed == "91" + number
               || typed == "+" + number || typed == "+0" + number || typed == "+91" + number)
  {
    hide WithoutCountryCode;
    CountryCodeGoes(WithoutPlus(typed), number);
    if typed != [] && typed[0] == '+' {
      assert typed == "+" + typed[1..];
      assert "+" + ("0" + number) == "+0" + number && "+" + ("91" + number) == "+91" + number;
    }
  }

  lemma CountryCodeGoes(digits: string, number: string)
    requires IsMobile(number)
    ensures WithoutCountryCode(digits) == number <==> (digits == number || digits == "0" + number || digits == "91" + number)
  {
    if |digits| >= 2 { assert digits == digits[..2] + digits[2..]; }
    if |digits| >= 1 { assert digits == [digits[0]] + digits[1..]; }
    assert ("91" + number)[..2] == "91" && ("91" + number)[2..] == number && ("0" + number)[1..] == number;
  }

  /** A PAN is accepted in either case and with white space around it, and stored in capitals: five letters,
      four digits, one letter. */
  lemma PanAcceptedIff(value: string, pan: string)
    ensures PanSchema(value) == Some(pan) <==>
              && |pan| == 10 && pan == Upper(Trim(value))
              && forall i :: 0 <= i < 10 ==> if 5 <= i < 9 then '0' <= pan[i] <= '9' else 'A' <= pan[i] <= 'Z'
  {
    hide Trim, Upper;
    var upper := Upper(Trim(value));
    if |upper| == 10 {
      assert forall i :: 5 <= i < 9 ==> upper[5..9][i - 5] == upper[i];
      assert forall i :: 0 <= i < 4 ==> upper[5..9][i] == upper[i + 5];
    }
  }
}

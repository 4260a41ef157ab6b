/** Recovery codes: `packages/contracts/src/mfa.ts`. The random source arrives as the stream of its
    answers; letter case is mapped for ASCII letters. */
module RecoveryCodes {
  import opened Text
  import Identity

  /** Without the look-alikes I, L, O, 0 and 1. */
  const ALPHABET: string := "ABCDEFGHJKMNPQRSTUVWXYZ23456789"
  const GROUP_SIZE: nat := 5
  const GROUPS: nat := 2
  const CODE_COUNT: nat := 10

  /** `source(i)` is the i-th answer of `randomInt(31)`. */
  type Source = nat -> nat

  ghost predicate InRange(source: Source) {
    forall i :: source(i) < |ALPHABET|
  }

  // ---------------------------------------------------------------------------
  // Drawing codes
  // ---------------------------------------------------------------------------

  function Chunk(source: Source, at: nat, n: nat): (chunk: string)
    requires InRange(source)
    ensures |chunk| == n
  {
    seq(n, i requires 0 <= i < n => ALPHABET[source(at + i)])
  }

  /** The code made of the ten answers from `at` on. */
  function CodeAt(source: Source, at: nat): string
    requires InRange(source)
  {
    Chunk(source, at, GROUP_SIZE) + "-" + Chunk(source, at + GROUP_SIZE, GROUP_SIZE)
  }

  function Join(groups: seq<string>): string {
    if groups == [] then "" else if |groups| == 1 then groups[0] else groups[0] + "-" + Join(groups[1..])
  }

  lemma JoinTwo(groups: seq<string>)
    requires |groups| == 2
    ensures Join(groups) == groups[0] + "-" + groups[1]
  {
    assert groups[1..] == [groups[1]];
  }

  method GenerateCode(source: Source, at: nat) returns (code: string)
    requires InRange(source)
    ensures code == CodeAt(source, at)
  {
    hide Join;
    var groups: seq<string> := [];
    var group := 0;
    while group < GROUPS
      invariant group == |groups| <= GROUPS
      invariant forall g :: 0 <= g < group ==> groups[g] == Chunk(source, at + g * GROUP_SIZE, GROUP_SIZE)
    {
      var chunk := "";
      var index := 0;
      while index < GROUP_SIZE
        invariant index <= GROUP_SIZE
        invariant chunk == Chunk(source, at + group * GROUP_SIZE, index)
      {
        chunk := chunk + [ALPHABET[source(at + group * GROUP_SIZE + index)]];
        index := index + 1;
      }
      groups := groups + [chunk];
      group := group + 1;
    }
    JoinTwo(groups);
    code := Join(groups);
  }

  function Drawn(source: Source, n: nat): seq<string>
    requires InRange(source)
  {
    if n == 0 then [] else Drawn(source, n - 1) + [CodeAt(source, (n - 1) * (GROUPS * GROUP_SIZE))]
  }

  /** The distinct elements in order of first appearance, as a JavaScript `Set` keeps them. */
  function Firsts(s: seq<string>): seq<string> {
    if s == [] then []
    else
      var before := Firsts(s[..|s| - 1]);
      if s[|s| - 1] in before then before else before + [s[|s| - 1]]
  }

  /** Exactly the first `count` distinct codes among the first `20 * count` drawn, or failure. */
  function Generated(source: Source, count: nat): Option<seq<string>>
    requires InRange(source)
  {
    var distinct := Firsts(Drawn(source, count * 20));
    if |distinct| < count then None else Some(distinct[..count])
  }

  lemma DrawOne(source: Source, n: nat)
    requires InRange(source)
    ensures var before, code := Firsts(Drawn(source, n)), CodeAt(source, n * (GROUPS * GROUP_SIZE));
            Firsts(Drawn(source, n + 1)) == if code in before then before else before + [code]
  {
    hide CodeAt;
    var s := Drawn(source, n + 1);
    assert s[..|s| - 1] == Drawn(source, n);
  }

  lemma {:induction false} LaterDrawsExtend(source: Source, m: nat, n: nat)
    requires InRange(source) && m <= n
    ensures Firsts(Drawn(source, m)) <= Firsts(Drawn(source, n))
    decreases n
  {
    hide Firsts, Drawn, CodeAt;
    if m < n {
      LaterDrawsExtend(source, m, n - 1);
      DrawOne(source, n - 1);
    }
  }

  lemma EarlyEnd(source: Source, count: nat, attempt: nat)
    requires InRange(source) && attempt <= count * 20
    requires var codes := Firsts(Drawn(source, attempt));
             |codes| == count || (|codes| < count && attempt == count * 20)
    ensures var codes := Firsts(Drawn(source, attempt));
            Generated(source, count) == if |codes| < count then None else Some(codes)
  {
    hide Firsts, Drawn;
    LaterDrawsExtend(source, attempt, count * 20);
    var early, late := Firsts(Drawn(source, attempt)), Firsts(Drawn(source, count * 20));
    assert early == late[..|early|];
  }

  method GenerateCodes(source: Source, count: nat) returns (result: Option<seq<string>>)
    requires InRange(source)
    ensures result == Generated(source, count)
  {
    var codes: seq<string> := [];
    var maxAttempts := count * 20;
    var attempt := 0;
    assert codes == Firsts(Drawn(source, 0));
    hide Firsts, Drawn, CodeAt, InRange, Generated;
    while |codes| < count && attempt < maxAttempts
      invariant attempt <= maxAttempts && |codes| <= count
      invariant codes == Firsts(Drawn(source, attempt))
    {
      var code := GenerateCode(source, attempt * (GROUPS * GROUP_SIZE));
      DrawOne(source, attempt);
      if code !in codes {
        codes := codes + [code];
      }
      attempt := attempt + 1;
    }
    EarlyEnd(source, count, attempt);
    if |codes| < count {
      return None;
    }
    return Some(codes);
  }

  // ---------------------------------------------------------------------------
  // What is issued
  // ---------------------------------------------------------------------------

  predicate InAlphabet(s: string) {
    forall i :: 0 <= i < |s| ==> s[i] in ALPHABET
  }

  predicate IsCode(code: string) {
    |code| == 11 && InAlphabet(code[..5]) && code[5] == '-' && InAlphabet(code[6..])
  }

  lemma CodeAtIsCode(source: Source, at: nat)
    requires InRange(source)
    ensures IsCode(CodeAt(source, at))
  {
    var code := CodeAt(source, at);
    assert code[..5] == Chunk(source, at, GROUP_SIZE) && code[6..] == Chunk(source, at + GROUP_SIZE, GROUP_SIZE);
  }

  lemma {:induction false} FirstsSound(s: seq<string>)
    requires forall code <- s :: IsCode(code)
    ensures Distinct(Firsts(s)) && forall code <- Firsts(s) :: IsCode(code)
  {
    if s != [] {
      FirstsSound(s[..|s| - 1]);
    }
  }

  lemma {:induction false} DrawnAreCodes(source: Source, n: nat)
    requires InRange(source)
    ensures forall code <- Drawn(source, n) :: IsCode(code)
  {
    if n > 0 {
      DrawnAreCodes(source, n - 1);
      CodeAtIsCode(source, (n - 1) * (GROUPS * GROUP_SIZE));
    }
  }

  /** A batch of codes as it may be issued. */
  ghost predicate IsIssue(codes: seq<string>, count: nat) {
    |codes| == count && Distinct(codes) && forall code <- codes :: IsCode(code)
  }

  /** Whatever the source answers, the result is a failure or exactly `count` distinct codes. */
  lemma GeneratedIsIssue(source: Source, count: nat)
    requires InRange(source)
    ensures var result := Generated(source, count);
            result.Some? ==> IsIssue(result.value, count)
  {
    DrawnAreCodes(source, count * 20);
    FirstsSound(Drawn(source, count * 20));
  }

  /** The letter at a place of the alphabet, counted from 'A' or '2' with the skipped look-alikes. */
  lemma AlphabetAt(i: nat)
    requires i < |ALPHABET|
    ensures ALPHABET[i] as int
         == if i < 8 then 'A' as int + i else if i < 10 then 'B' as int + i else if i < 12 then 'C' as int + i
            else if i < 23 then 'D' as int + i else '2' as int + i - 23
  {
  }

  /** The alphabet is the capital letters and digits without five look-alikes, none of them twice. */
  lemma AlphabetIs(c: char)
    ensures c in ALPHABET <==> (('A' <= c <= 'Z' || '0' <= c <= '9') && c != 'I' && c != 'L' && c != 'O' && c != '0' && c != '1')
    ensures |ALPHABET| == 31 && forall i, j :: 0 <= i < j < |ALPHABET| ==> ALPHABET[i] != ALPHABET[j]
  {
    forall i: nat | i < |ALPHABET|
      ensures ALPHABET[i] as int
           == if i < 8 then 'A' as int + i else if i < 10 then 'B' as int + i else if i < 12 then 'C' as int + i
              else if i < 23 then 'D' as int + i else '2' as int + i - 23
    {
      AlphabetAt(i);
    }
    var n := |ALPHABET|;
    assert n == 31;
    hide ALPHABET;
    var place := if '2' <= c <= '9' then c as int - '2' as int + 23
                 else if c <= 'H' then c as int - 'A' as int
                 else if c <= 'K' then c as int - 'B' as int
                 else if c <= 'N' then c as int - 'C' as int
                 else c as int - 'D' as int;
    if 0 <= place < n { assert ALPHABET[place] == ALPHABET[place]; }
  }

  /** The i-th answer from `at` on. */
  function Answer(source: Source, at: nat, i: nat): nat {
    source(at + i)
  }

  lemma AlphabetApart(a: nat, b: nat)
    requires a < |ALPHABET| && b < |ALPHABET|
    ensures ALPHABET[a] == ALPHABET[b] <==> a == b
  {
    AlphabetIs('A');
  }

  lemma ChunksEqualIff(source: Source, a: nat, b: nat, n: nat)
    requires InRange(source)
    ensures Chunk(source, a, n) == Chunk(source, b, n) <==> forall i: nat :: i < n ==> Answer(source, a, i) == Answer(source, b, i)
  {
    var p, q := Chunk(source, a, n), Chunk(source, b, n);
    hide Chunk, ALPHABET;
    forall i: nat | i < n ensures p[i] == q[i] <==> Answer(source, a, i) == Answer(source, b, i) {
      ChunkAt(source, a, n, i);
      ChunkAt(source, b, n, i);
      AlphabetApart(Answer(source, a, i), Answer(source, b, i));
    }
  }

  lemma ChunkAt(source: Source, at: nat, n: nat, i: nat)
    requires InRange(source) && i < n
    ensures Answer(source, at, i) < |ALPHABET| && Chunk(source, at, n)[i] == ALPHABET[Answer(source, at, i)]
  {
    hide ALPHABET;
  }

  lemma HalvesEqualIff(source: Source, a: nat, b: nat)
    requires InRange(source)
    ensures CodeAt(source, a) == CodeAt(source, b) <==>
              Chunk(source, a, 5) == Chunk(source, b, 5) && Chunk(source, a + 5, 5) == Chunk(source, b + 5, 5)
  {
    var p, q := CodeAt(source, a), CodeAt(source, b);
    assert p[..5] == Chunk(source, a, 5) && p[6..] == Chunk(source, a + 5, 5) && q[..5] == Chunk(source, b, 5) && q[6..] == Chunk(source, b + 5, 5);
    hide Chunk;
  }

  ghost predicate SameAnswers(source: Source, a: nat, b: nat, n: nat) {
    forall i: nat :: i < n ==> Answer(source, a, i) == Answer(source, b, i)
  }

  lemma FiveAndFive(source: Source, a: nat, b: nat)
    ensures SameAnswers(source, a, b, 10) <==> SameAnswers(source, a, b, 5) && SameAnswers(source, a + 5, b + 5, 5)
  {
    hide Answer;
    if SameAnswers(source, a, b, 5) && SameAnswers(source, a + 5, b + 5, 5) {
      forall i: nat | i < 10 ensures Answer(source, a, i) == Answer(source, b, i) {
        if i >= 5 {
          AnswersShift(source, a, i - 5);
          AnswersShift(source, b, i - 5);
        }
      }
    }
    if SameAnswers(source, a, b, 10) {
      var secondA, secondB := a + 5, b + 5;
      forall i: nat | i < 5 ensures Answer(source, secondA, i) == Answer(source, secondB, i) {
        AnswersShift(source, a, i);
        AnswersShift(source, b, i);
      }
    }
  }

  /** A code tells its ten answers apart: two are the same only if all ten answers are. */
  lemma CodesEqualIff(source: Source, a: nat, b: nat)
    requires InRange(source)
    ensures CodeAt(source, a) == CodeAt(source, b) <==> forall i: nat :: i < 10 ==> Answer(source, a, i) == Answer(source, b, i)
  {
    hide CodeAt, Chunk, InRange, Answer;
    HalvesEqualIff(source, a, b);
    ChunksEqualIff(source, a, b, 5);
    ChunksEqualIff(source, a + 5, b + 5, 5);
    FiveAndFive(source, a, b);
  }

  lemma AnswersShift(source: Source, at: nat, i: nat)
    ensures Answer(source, at + 5, i) == Answer(source, at, i + 5)
  {
  }

  /** Every draw has its own ten answers. */
  function NthCode(source: Source, j: nat): string
    requires InRange(source)
  {
    CodeAt(source, 10 * j)
  }

  /** The different codes among the first `n` drawn. */
  ghost function DrawnSet(source: Source, n: nat): set<string>
    requires InRange(source)
  {
    set j: nat | j < n :: NthCode(source, j)
  }

  lemma NothingDrawn(source: Source)
    requires InRange(source)
    ensures Firsts(Drawn(source, 0)) == []
  {
  }

  lemma {:induction false} FirstsAreDrawn(source: Source, n: nat)
    requires InRange(source)
    ensures var firsts := Firsts(Drawn(source, n));
            (forall code :: code in firsts <==> code in DrawnSet(source, n)) && |firsts| == |DrawnSet(source, n)|
  {
    hide CodeAt, InRange, Firsts, Drawn;
    if n == 0 {
      NothingDrawn(source);
      assert DrawnSet(source, 0) == {};
    } else {
      FirstsAreDrawn(source, n - 1);
      DrawOne(source, n - 1);
      assert DrawnSet(source, n) == DrawnSet(source, n - 1) + {NthCode(source, n - 1)};
    }
  }

  /** Drawing fails exactly if twenty times as many draws as codes wanted hold too few different codes; and
      nothing is issued that was not drawn. */
  lemma GeneratedIff(source: Source, count: nat)
    requires InRange(source)
    ensures var result := Generated(source, count);
            && (result.Some? <==> |DrawnSet(source, 20 * count)| >= count)
            && (result.Some? ==> forall code <- result.value :: code in DrawnSet(source, 20 * count))
  {
    hide Firsts, Drawn, DrawnSet;
    FirstsAreDrawn(source, 20 * count);
  }

  // ---------------------------------------------------------------------------
  // What is typed back
  // ---------------------------------------------------------------------------

  predicate IsCodeChar(c: char) {
    IsUpper(c) || IsDigit(c)
  }

  function Normalise(value: string): string {
    Keep(Identity.Upper(Trim(value)), IsCodeChar)
  }

  lemma {:induction false} KeepNone(s: string, class_: char -> bool)
    requires forall i :: 0 <= i < |s| ==> !class_(s[i])
    ensures Keep(s, class_) == []
  {
    if s != [] {
      KeepNone(s[1..], class_);
    }
  }

  lemma {:induction false} KeepKeeps(s: string, class_: char -> bool)
    ensures forall i :: 0 <= i < |Keep(s, class_)| ==> class_(Keep(s, class_)[i])
  {
    if s != [] {
      KeepKeeps(s[1..], class_);
    }
  }

  /** Nothing but the letters and digits counts: the trim is subsumed. */
  function Symbols(s: string): string {
    Keep(Identity.Upper(s), IsCodeChar)
  }

  lemma SymbolsJoin(a: string, b: string)
    ensures Symbols(a + b) == Symbols(a) + Symbols(b)
  {
    assert Identity.Upper(a + b) == Identity.Upper(a) + Identity.Upper(b);
    Identity.KeepAppend(Identity.Upper(a), Identity.Upper(b), IsCodeChar);
  }

  lemma SpaceHasNoSymbols(s: string)
    requires AllSpace(s)
    ensures Symbols(s) == []
  {
    KeepNone(Identity.Upper(s), IsCodeChar);
  }

  lemma {:induction false} TrimStartKeepsSymbols(s: string)
    ensures Symbols(TrimStart(s)) == Symbols(s)
  {
    if s != [] && IsSpace(s[0]) {
      TrimStartKeepsSymbols(s[1..]);
      assert s == s[..1] + s[1..];
      SymbolsJoin(s[..1], s[1..]);
      SpaceHasNoSymbols(s[..1]);
    }
  }

  lemma {:induction false} TrimEndKeepsSymbols(s: string)
    ensures Symbols(TrimEnd(s)) == Symbols(s)
  {
    var last := |s| - 1;
    if s != [] && IsSpace(s[last]) {
      TrimEndKeepsSymbols(s[..last]);
      assert s == s[..last] + s[last..];
      SymbolsJoin(s[..last], s[last..]);
      SpaceHasNoSymbols(s[last..]);
    }
  }

  lemma NormaliseIsSymbols(value: string)
    ensures Normalise(value) == Symbols(value)
  {
    TrimEndKeepsSymbols(TrimStart(value));
    TrimStartKeepsSymbols(value);
  }

  /** Each half of a code is its own normal form, whichever case it is typed in. */
  lemma AlphabetIsSymbols(s: string)
    requires InAlphabet(s)
    ensures Symbols(s) == s && Symbols(Identity.Lower(s)) == s
  {
    forall i | 0 <= i < |s| ensures IsCodeChar(s[i]) { LetterIsSymbol(s[i]); }
    assert Identity.Upper(s) == s && Identity.Upper(Identity.Lower(s)) == s;
    Identity.KeepAll(s, IsCodeChar);
  }

  lemma LetterIsSymbol(c: char)
    requires c in ALPHABET
    ensures IsCodeChar(c)
  {
    var i :| 0 <= i < |ALPHABET| && ALPHABET[i] == c;
  }

  function Compact(code: string): string
    requires IsCode(code)
  {
    code[..5] + code[6..]
  }

  /** However a code is typed back, in either case and with any separator, it is found. */
  lemma FormattingIgnored(code: string, separator: string)
    requires IsCode(code) && Symbols(separator) == []
    ensures Normalise(code[..5] + separator + code[6..]) == Compact(code)
    ensures Normalise(Identity.Lower(code[..5]) + separator + Identity.Lower(code[6..])) == Compact(code)
  {
    AlphabetIsSymbols(code[..5]);
    AlphabetIsSymbols(code[6..]);
    NormaliseParts(code[..5], separator, code[6..]);
    NormaliseParts(Identity.Lower(code[..5]), separator, Identity.Lower(code[6..]));
  }

  lemma NormaliseParts(a: string, separator: string, b: string)
    requires Symbols(separator) == []
    ensures Normalise(a + separator + b) == Symbols(a) + Symbols(b)
  {
    hide Normalise, Symbols;
    NormaliseIsSymbols(a + separator + b);
    SymbolsJoin(a + separator, b);
    SymbolsJoin(a, separator);
    assert Symbols(a) + [] == Symbols(a);
  }

  lemma NormaliseCode(code: string)
    requires IsCode(code)
    ensures Normalise(code) == Compact(code)
  {
    HyphenIsNoSymbol();
    assert code == code[..5] + "-" + code[6..] by { hide InAlphabet; }
    hide InAlphabet, Symbols, Normalise;
    FormattingIgnored(code, "-");
  }

  lemma HyphenIsNoSymbol()
    ensures Symbols("-") == []
  {
    assert Identity.Upper("-") == "-";
    KeepNone("-", IsCodeChar);
  }

  /** Two issued codes with one normal form, hence one hash, are the same code. */
  lemma NormaliseInjective(a: string, b: string)
    requires IsCode(a) && IsCode(b)
    ensures Normalise(a) == Normalise(b) <==> a == b
  {
    hide Normalise, InAlphabet;
    NormaliseCode(a);
    NormaliseCode(b);
    if Compact(a) == Compact(b) {
      assert Compact(a)[..5] == Compact(b)[..5] && Compact(a)[5..] == Compact(b)[5..];
      assert a == a[..5] + "-" + a[6..] && b == b[..5] + "-" + b[6..];
    }
  }

  /** The lookup normalises what is already normal; that changes nothing. */
  lemma NormaliseTwice(value: string)
    ensures Normalise(Normalise(value)) == Normalise(value)
  {
    var key := Normalise(value);
    NormaliseIsSymbols(key);
    KeepKeeps(Identity.Upper(Trim(value)), IsCodeChar);
    assert forall i :: 0 <= i < |key| ==> IsCodeChar(key[i]);
    assert Identity.Upper(key) == key;
    Identity.KeepAll(key, IsCodeChar);
  }

  // ---------------------------------------------------------------------------
  // Authenticator codes
  // ---------------------------------------------------------------------------

  /** What `verifyTotp` is prepared to look at: six digits, white space aside. */
  predicate IsTotp(code: string) {
    var digits := Keep(code, Identity.NotSpace);
    |digits| == 6 && AllDigits(digits)
  }

  lemma {:induction false} DigitsAreSymbols(code: string)
    requires AllDigits(Keep(code, Identity.NotSpace))
    ensures Symbols(code) == Keep(code, Identity.NotSpace)
  {
    if code != [] {
      var tail := Keep(code[1..], Identity.NotSpace);
      var whole := Keep(code, Identity.NotSpace);
      assert tail == whole[|whole| - |tail|..];
      DigitsAreSymbols(code[1..]);
      assert !IsSpace(code[0]) ==> whole[0] == code[0];
      OneSymbol(code[0]);
      assert code == [code[0]] + code[1..];
      SymbolsJoin([code[0]], code[1..]);
    }
  }

  lemma OneSymbol(c: char)
    requires IsSpace(c) || IsDigit(c)
    ensures Symbols([c]) == if IsSpace(c) then [] else [c]
  {
    assert Identity.Upper([c]) == [c];
    assert [c][1..] == [];
    assert Keep([c], IsCodeChar) == (if IsCodeChar(c) then [c] else []) + Keep([], IsCodeChar);
  }

  /** Six digits never stand for a recovery code, so the two factors cannot be mixed up. */
  lemma TotpIsNoRecoveryCode(typed: string, code: string)
    requires IsTotp(typed) && IsCode(code)
    ensures Normalise(typed) != Normalise(code)
  {
    NormaliseIsSymbols(typed);
    DigitsAreSymbols(typed);
    NormaliseCode(code);
  }
}

/** The few string operations of the source language that the models share. */
module Text {

  datatype Option<+T> = None | Some(value: T)

  ghost predicate Distinct<T(!new)>(xs: seq<T>) {
    forall i, j :: 0 <= i < j < |xs| ==> xs[i] != xs[j]
  }

  /** White space and line terminators: what `trim()` removes and `\s` matches. */
  predicate IsSpace(c: char) {
    var code := c as int;
    || 9 <= code <= 13 || code == 0x20 || code == 0xA0 || code == 0x1680 || 0x2000 <= code <= 0x200A
    || code == 0x2028 || code == 0x2029 || code == 0x202F || code == 0x205F || code == 0x3000 || code == 0xFEFF
  }

  predicate IsDigit(c: char) {
    '0' <= c <= '9'
  }

  predicate IsUpper(c: char) {
    'A' <= c <= 'Z'
  }

  predicate AllDigits(s: string) {
    forall i :: 0 <= i < |s| ==> IsDigit(s[i])
  }

  predicate AllSpace(s: string) {
    forall i :: 0 <= i < |s| ==> IsSpace(s[i])
  }

  function TrimStart(s: string): string {
    if s != [] && IsSpace(s[0]) then TrimStart(s[1..]) else s
  }

  function TrimEnd(s: string): string {
    if s != [] && IsSpace(s[|s| - 1]) then TrimEnd(s[..|s| - 1]) else s
  }

  function Trim(s: string): string {
    TrimEnd(TrimStart(s))
  }

  /** `replace` of everything outside a character class by nothing. */
  function Keep(s: string, class_: char -> bool): string {
    if s == [] then [] else (if class_(s[0]) then [s[0]] else []) + Keep(s[1..], class_)
  }

  lemma {:induction false} TrimStartEmpty(s: string)
    ensures TrimStart(s) == [] <==> AllSpace(s)
  {
    if s != [] && IsSpace(s[0]) {
      TrimStartEmpty(s[1..]);
      assert AllSpace(s[1..]) ==> AllSpace(s) by {
        assert forall i :: 1 <= i < |s| ==> s[i] == s[1..][i - 1];
      }
    }
  }

  lemma {:induction false} TrimEndEmpty(s: string)
    ensures TrimEnd(s) == [] <==> AllSpace(s)
  {
    if s != [] && IsSpace(s[|s| - 1]) {
      TrimEndEmpty(s[..|s| - 1]);
    }
  }

  /** A string is blank exactly when nothing is left of it once trimmed. */
  lemma TrimEmpty(s: string)
    ensures Trim(s) == [] <==> AllSpace(s)
  {
    TrimStartEmpty(s);
    TrimEndEmpty(TrimStart(s));
    TrimStartIsSuffix(s);
  }

  lemma {:induction false} TrimStartIsSuffix(s: string)
    ensures |TrimStart(s)| <= |s| && TrimStart(s) == s[|s| - |TrimStart(s)|..]
    ensures TrimStart(s) != [] ==> !IsSpace(TrimStart(s)[0])
  {
    if s != [] && IsSpace(s[0]) {
      TrimStartIsSuffix(s[1..]);
    }
  }
}

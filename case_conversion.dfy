/**
 * ASCII case conversion of strings, as done in place by
 * `to_lowercase` and `to_uppercase`: only the letters A-Z and a-z change,
 * every other character is left as it is.
 */
module CaseConversion {

  predicate IsUpper(c: char) { 'A' <= c <= 'Z' }
  predicate IsLower(c: char) { 'a' <= c <= 'z' }
  predicate IsLetter(c: char) { IsUpper(c) || IsLower(c) }

  /** The lower-case form of one character. */
  function LowerChar(c: char): (r: char)
    ensures IsLetter(c) <==> IsLetter(r)
    ensures !IsUpper(r)
    ensures IsLower(c) || !IsLetter(c) ==> r == c
    ensures IsUpper(c) ==> r as int == c as int + 32
  {
    if IsUpper(c) then (c as int + 32) as char else c
  }

  /** The upper-case form of one character. */
  function UpperChar(c: char): (r: char)
    ensures IsLetter(c) <==> IsLetter(r)
    ensures !IsLower(r)
    ensures IsUpper(c) || !IsLetter(c) ==> r == c
    ensures IsLower(c) ==> r as int == c as int - 32
  {
    if IsLower(c) then (c as int - 32) as char else c
  }

  /** The string with every letter mapped to lower case. */
  function Lowered(s: string): (r: string)
    ensures |r| == |s|
    ensures forall i :: 0 <= i < |s| ==> r[i] == LowerChar(s[i])
  {
    seq(|s|, i requires 0 <= i < |s| => LowerChar(s[i]))
  }

  /** The string with every letter mapped to upper case. */
  function Uppered(s: string): (r: string)
    ensures |r| == |s|
    ensures forall i :: 0 <= i < |s| ==> r[i] == UpperChar(s[i])
  {
    seq(|s|, i requires 0 <= i < |s| => UpperChar(s[i]))
  }

  /** `to_lowercase(str)`: lower-cases the characters of `a` in place. */
  method ToLowercase(a: array<char>)
    modifies a
    ensures a[..] == Lowered(old(a[..]))
  {
    var i := 0;
    while i < a.Length
      invariant 0 <= i <= a.Length
      invariant forall k :: 0 <= k < i ==> a[k] == LowerChar(old(a[k]))
      invariant forall k :: i <= k < a.Length ==> a[k] == old(a[k])
    {
      a[i] := LowerChar(a[i]);
      i := i + 1;
    }
  }

  /** `to_uppercase(str)`: upper-cases the characters of `a` in place. */
  method ToUppercase(a: array<char>)
    modifies a
    ensures a[..] == Uppered(old(a[..]))
  {
    var i := 0;
    while i < a.Length
      invariant 0 <= i <= a.Length
      invariant forall k :: 0 <= k < i ==> a[k] == UpperChar(old(a[k]))
      invariant forall k :: i <= k < a.Length ==> a[k] == old(a[k])
    {
      a[i] := UpperChar(a[i]);
      i := i + 1;
    }
  }

  /** Only letters change; a lowered string holds no upper-case letter. */
  lemma LoweredChangesOnlyLetters(s: string)
    ensures forall i :: 0 <= i < |s| && !IsLetter(s[i]) ==> Lowered(s)[i] == s[i]
    ensures forall i :: 0 <= i < |s| ==> !IsUpper(Lowered(s)[i])
    ensures forall i :: 0 <= i < |s| ==> (IsLetter(s[i]) <==> IsLetter(Lowered(s)[i]))
  {
  }

  /** Only letters change; an uppered string holds no lower-case letter. */
  lemma UpperedChangesOnlyLetters(s: string)
    ensures forall i :: 0 <= i < |s| && !IsLetter(s[i]) ==> Uppered(s)[i] == s[i]
    ensures forall i :: 0 <= i < |s| ==> !IsLower(Uppered(s)[i])
    ensures forall i :: 0 <= i < |s| ==> (IsLetter(s[i]) <==> IsLetter(Uppered(s)[i]))
  {
  }

  /** Converting twice is converting once. */
  lemma CaseConversionIdempotent(s: string)
    ensures Lowered(Lowered(s)) == Lowered(s)
    ensures Uppered(Uppered(s)) == Uppered(s)
  {
  }

  /** The case a string had before does not matter to either conversion. */
  lemma CaseConversionForgetsCase(s: string)
    ensures Lowered(Uppered(s)) == Lowered(s)
    ensures Uppered(Lowered(s)) == Uppered(s)
  {
  }

  /** The cases checked by the `to_lowercase` and `to_uppercase` tests. */
  method ToLowercaseTests()
  {
    var a := new char[3]['F', 'O', 'O'];
    ToLowercase(a);
    assert a[..] == "foo";
    a := new char[3]['f', 'o', 'o'];
    ToLowercase(a);
    assert a[..] == "foo";
    a := new char[0];
    ToLowercase(a);
    assert a[..] == "";
  }

  /** Characters other than letters are left as they are. */
  method ToLowercaseKeepsSymbols()
  {
    var a := new char[8]['!', '_', '-', '.', ',', 'F', 'o', 'O'];
    ToLowercase(a);
    assert a[..] == "!_-.,foo";
  }

  method ToUppercaseTests()
  {
    var a := new char[3]['F', 'O', 'O'];
    ToUppercase(a);
    assert a[..] == "FOO";
    a := new char[3]['f', 'o', 'o'];
    ToUppercase(a);
    assert a[..] == "FOO";
    a := new char[0];
    ToUppercase(a);
    assert a[..] == "";
  }

  /** Characters other than letters are left as they are. */
  method ToUppercaseKeepsSymbols()
  {
    var a := new char[8]['!', '_', '-', '.', ',', 'F', 'o', 'O'];
    ToUppercase(a);
    assert a[..] == "!_-.,FOO";
  }
}

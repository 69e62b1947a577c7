/** String helpers standing in for the JavaScript string methods the page relies on. */
module Text {

  predicate IsUpper(c: char) {
    'A' <= c <= 'Z'
  }

  /** ASCII lower-casing of one character (the model's `toLowerCase`). */
  function LowerChar(c: char): (r: char)
    ensures !IsUpper(r)
    ensures !IsUpper(c) ==> r == c
  {
    if IsUpper(c) then (c as int + 32) as char else c
  }

  /** ASCII lower-casing of a string, character by character. */
  function Lower(s: string): (r: string)
    ensures |r| == |s|
    ensures forall i :: 0 <= i < |s| ==> r[i] == LowerChar(s[i])
  {
    if |s| == 0 then [] else [LowerChar(s[0])] + Lower(s[1..])
  }

  /** Lower-casing an already lower-cased string changes nothing. */
  lemma LowerIdempotent(s: string)
    ensures Lower(Lower(s)) == Lower(s)
  {
  }

  /** `q` occurs in `s` starting at position `i`. */
  ghost predicate OccursAt(s: string, q: string, i: int) {
    0 <= i && i + |q| <= |s| && s[i..i + |q|] == q
  }

  predicate StartsWith(s: string, q: string) {
    |q| <= |s| && s[..|q|] == q
  }

  /** `String.prototype.includes`: `q` is a substring of `s`; the empty string is in every string. */
  function Contains(s: string, q: string): bool
  {
    if StartsWith(s, q) then true
    else if |s| == 0 then false
    else Contains(s[1..], q)
  }

  /** An occurrence of `q` anywhere in `s` makes `Contains` true. */
  lemma {:induction false} OccursContains(s: string, q: string, i: int)
    requires OccursAt(s, q, i)
    ensures Contains(s, q)
  {
    if i == 0 {
      assert StartsWith(s, q);
    } else if !StartsWith(s, q) {
      assert s[1..][i - 1..i - 1 + |q|] == s[i..i + |q|];
      OccursContains(s[1..], q, i - 1);
    }
  }

  /** `Contains` is true only when `q` occurs somewhere in `s`. */
  lemma {:induction false} ContainsOccurs(s: string, q: string)
    requires Contains(s, q)
    ensures exists i :: OccursAt(s, q, i)
  {
    if StartsWith(s, q) {
      assert OccursAt(s, q, 0);
    } else {
      ContainsOccurs(s[1..], q);
      var j :| OccursAt(s[1..], q, j);
      assert s[1..][j..j + |q|] == s[j + 1..j + 1 + |q|];
      assert OccursAt(s, q, j + 1);
    }
  }

  /** `Contains` agrees with the positional definition of a substring. */
  lemma ContainsIff(s: string, q: string)
    ensures Contains(s, q) <==> exists i :: OccursAt(s, q, i)
  {
    if Contains(s, q) {
      ContainsOccurs(s, q);
    }
    forall i | OccursAt(s, q, i)
      ensures Contains(s, q)
    {
      OccursContains(s, q, i);
    }
  }

  /** The characters `String.prototype.trim` removes: ECMAScript WhiteSpace and LineTerminator. */
  const Whitespace: set<char> := {
    '\t', '\n', '\U{000B}', '\U{000C}', '\r', ' ', '\U{00A0}', '\U{1680}',
    '\U{2000}', '\U{2001}', '\U{2002}', '\U{2003}', '\U{2004}', '\U{2005}', '\U{2006}',
    '\U{2007}', '\U{2008}', '\U{2009}', '\U{200A}',
    '\U{2028}', '\U{2029}', '\U{202F}', '\U{205F}', '\U{3000}', '\U{FEFF}'
  }

  predicate IsSpace(c: char) {
    c in Whitespace
  }

  predicate AllSpace(s: string) {
    forall i :: 0 <= i < |s| ==> IsSpace(s[i])
  }

  /** The end of the run of whitespace in `s` that starts at index `i`. */
  function SpaceRunEnd(s: string, i: nat): (j: nat)
    requires i <= |s|
    ensures i <= j <= |s|
    ensures forall k :: i <= k < j ==> IsSpace(s[k])
    ensures j == |s| || !IsSpace(s[j])
    decreases |s| - i
  {
    if i < |s| && IsSpace(s[i]) then SpaceRunEnd(s, i + 1) else i
  }

  /** The start of the run of whitespace that ends at index `j`, looking no further left than `lo`. */
  function SpaceRunStart(s: string, lo: nat, j: nat): (i: nat)
    requires lo <= j <= |s|
    ensures lo <= i <= j
    ensures forall k :: i <= k < j ==> IsSpace(s[k])
    ensures i == lo || !IsSpace(s[i - 1])
    decreases j - lo
  {
    if lo < j && IsSpace(s[j - 1]) then SpaceRunStart(s, lo, j - 1) else j
  }

  /** Where the text kept by `Trim` begins. */
  function KeptStart(s: string): nat {
    SpaceRunEnd(s, 0)
  }

  /** Where the text kept by `Trim` ends. */
  function KeptEnd(s: string): nat {
    SpaceRunStart(s, KeptStart(s), |s|)
  }

  /** `String.prototype.trim`: `s` with whitespace removed from both ends. */
  function Trim(s: string): string {
    s[KeptStart(s)..KeptEnd(s)]
  }

  /** `s[a..b]` is what is left of `s` once its leading and trailing whitespace are cut off:
      everything outside it is whitespace, and when it is not empty it begins and ends with a
      non-whitespace character. */
  ghost predicate TrimBounds(s: string, a: nat, b: nat) {
    && a <= b <= |s|
    && (forall k :: 0 <= k < a ==> IsSpace(s[k]))
    && (forall k :: b <= k < |s| ==> IsSpace(s[k]))
    && (a < b ==> !IsSpace(s[a]) && !IsSpace(s[b - 1]))
  }

  /** The text `Trim` keeps is bounded by whitespace on both sides and begins and ends with
      non-whitespace. */
  lemma TrimSlice(s: string)
    ensures TrimBounds(s, KeptStart(s), KeptEnd(s))
    ensures Trim(s) == s[KeptStart(s)..KeptEnd(s)]
  {
  }

  /** Any pair of bounds meeting `TrimBounds` cuts out the same text as `Trim`: trimming is
      determined by the characterisation alone. */
  lemma TrimUnique(s: string, a: nat, b: nat)
    requires TrimBounds(s, a, b)
    ensures Trim(s) == s[a..b]
  {
    var a0 := KeptStart(s);
    var b0 := KeptEnd(s);
    if a < b {
      assert a0 < |s| ==> !IsSpace(s[a0]);
      assert a0 == a;
      assert b0 > a0 ==> !IsSpace(s[b0 - 1]);
      assert b0 == b;
    } else {
      assert forall k :: 0 <= k < |s| ==> IsSpace(s[k]);
      assert a0 == |s|;
    }
  }

  /** The trimmed string is empty exactly when `s` is all whitespace (the page's blank-input test). */
  lemma TrimEmpty(s: string)
    ensures Trim(s) == [] <==> AllSpace(s)
  {
    if AllSpace(s) {
      TrimUnique(s, |s|, |s|);
    }
    if Trim(s) == [] {
      var a := KeptStart(s);
      assert a == KeptEnd(s);
      assert AllSpace(s);
    }
  }

  lemma SpaceIgnoresCase(c: char)
    ensures IsSpace(LowerChar(c)) <==> IsSpace(c)
  {
  }

  /** Lower-casing keeps every character's whitespace status, so it keeps trim bounds. */
  lemma LowerKeepsTrimBounds(s: string, a: nat, b: nat)
    requires TrimBounds(s, a, b)
    ensures TrimBounds(Lower(s), a, b)
  {
    var l := Lower(s);
    forall k | 0 <= k < |s|
      ensures IsSpace(l[k]) <==> IsSpace(s[k])
    {
      SpaceIgnoresCase(s[k]);
    }
  }

  lemma LowerSlice(s: string, a: nat, b: nat)
    requires a <= b <= |s|
    ensures Lower(s)[a..b] == Lower(s[a..b])
  {
  }

  /** Trimming and lower-casing commute, so the order the page applies them in does not matter. */
  lemma TrimLower(s: string)
    ensures Trim(Lower(s)) == Lower(Trim(s))
  {
    var a := KeptStart(s);
    var b := KeptEnd(s);
    TrimSlice(s);
    LowerKeepsTrimBounds(s, a, b);
    TrimUnique(Lower(s), a, b);
    LowerSlice(s, a, b);
  }

  /** The decimal digit for `d`. */
  function DigitChar(d: nat): (c: char)
    requires d < 10
    ensures '0' <= c <= '9'
    ensures (c as int) - ('0' as int) == d
  {
    ('0' as int + d) as char
  }

  predicate IsDigit(c: char) {
    '0' <= c <= '9'
  }

  predicate AllDigits(s: string) {
    forall i :: 0 <= i < |s| ==> IsDigit(s[i])
  }

  /** The number a string of decimal digits denotes, most significant digit first. */
  function DecimalValue(s: string): nat
    requires AllDigits(s)
  {
    if |s| == 0 then 0
    else DecimalValue(s[..|s| - 1]) * 10 + ((s[|s| - 1] as int) - ('0' as int))
  }

  /** `String(n)` for a non-negative integer: its shortest decimal numeral. */
  function NatToString(n: nat): (r: string)
    ensures |r| > 0 && AllDigits(r)
    ensures |r| > 1 ==> r[0] != '0'
    ensures DecimalValue(r) == n
  {
    if n < 10 then [DigitChar(n)]
    else
      var h := NatToString(n / 10);
      var r := h + [DigitChar(n % 10)];
      assert r[..|r| - 1] == h;
      r
  }

  /** `Array.prototype.join`: the parts with `sep` between consecutive ones. */
  function Join(parts: seq<string>, sep: string): (r: string)
    ensures |parts| == 1 ==> r == parts[0]
  {
    if |parts| == 0 then []
    else if |parts| == 1 then parts[0]
    else parts[0] + sep + Join(parts[1..], sep)
  }
}

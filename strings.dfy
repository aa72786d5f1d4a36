/** Text helpers used by several modules: substring search, joining, and
    rendering a number in a positional base (decimal, lower-case hex). */
module Strings {
  import opened Wrappers

  /** `pat` occurs in `s` starting at index `i`. */
  predicate OccursAt(s: string, pat: string, i: nat) {
    i + |pat| <= |s| && s[i..i + |pat|] == pat
  }

  /** The first occurrence of `pat` in `s` at or after index `from`. */
  function IndexOfFrom(s: string, pat: string, from: nat): (r: Option<nat>)
    decreases |s| - from
    ensures r.Some? ==> from <= r.value && OccursAt(s, pat, r.value)
    ensures r.Some? ==> forall j :: from <= j < r.value ==> !OccursAt(s, pat, j)
    ensures r.None? ==> forall j :: from <= j ==> !OccursAt(s, pat, j)
  {
    if |s| < from + |pat| then None
    else if OccursAt(s, pat, from) then Some(from)
    else IndexOfFrom(s, pat, from + 1)
  }

  /** The first occurrence of `pat` in `s` (Python's `pat in s`, `str.find`). */
  function IndexOf(s: string, pat: string): Option<nat> {
    IndexOfFrom(s, pat, 0)
  }

  /** `pat in s`. */
  predicate Contains(s: string, pat: string) {
    IndexOf(s, pat).Some?
  }

  /** `s.replace(c, "")`: `s` with every `c` removed. */
  function RemoveChar(s: string, c: char): (r: string)
    ensures c !in r
    ensures |r| <= |s|
    ensures forall i :: 0 <= i < |r| ==> r[i] in s
    ensures multiset(r) == multiset(s)[c := 0]
    ensures c !in s ==> r == s
  {
    if s == [] then []
    else
      assert s == [s[0]] + s[1..];
      (if s[0] == c then [] else [s[0]]) + RemoveChar(s[1..], c)
  }

  /** Removing a character distributes over concatenation, so the kept
      characters stay in their order; with `RemoveCharSingle` this
      determines `RemoveChar` completely. */
  lemma {:induction false} RemoveCharConcat(a: string, b: string, c: char)
    ensures RemoveChar(a + b, c) == RemoveChar(a, c) + RemoveChar(b, c)
    decreases |a|
  {
    if a == [] {
      assert a + b == b;
    } else {
      RemoveCharConcat(a[1..], b, c);
      RemoveCharConcatStep(a, b, c);
    }
  }

  /** The inductive step of `RemoveCharConcat`: the law for `a` follows
      from the law for `a` without its first character. */
  lemma RemoveCharConcatStep(a: string, b: string, c: char)
    requires a != []
    requires RemoveChar(a[1..] + b, c) == RemoveChar(a[1..], c) + RemoveChar(b, c)
    ensures RemoveChar(a + b, c) == RemoveChar(a, c) + RemoveChar(b, c)
  {
    var x, rest := a[0], a[1..];
    var head := if x == c then [] else [x];
    assert RemoveChar(a + b, c) == head + RemoveChar(rest + b, c) by {
      SplitFirst(a, b);
      RemoveCharCons(x, rest + b, c);
    }
    assert RemoveChar(a, c) == head + RemoveChar(rest, c) by {
      SplitFirst(a, []);
      RemoveCharCons(x, rest, c);
    }
    ConcatAssoc(head, RemoveChar(rest, c), RemoveChar(b, c));
  }

  /** A non-empty `a` is its first character followed by the rest. */
  lemma SplitFirst(a: string, b: string)
    requires a != []
    ensures a + b == [a[0]] + (a[1..] + b)
    ensures a == [a[0]] + a[1..]
  {
  }

  /** Concatenation is associative. */
  lemma ConcatAssoc(x: string, y: string, z: string)
    ensures x + (y + z) == (x + y) + z
  {
  }

  /** One unfolding step of `RemoveChar`. */
  lemma RemoveCharCons(x: char, s: string, c: char)
    ensures RemoveChar([x] + s, c) == (if x == c then [] else [x]) + RemoveChar(s, c)
  {
    assert ([x] + s)[1..] == s;
  }

  /** A single character is dropped exactly when it is `c`. */
  lemma RemoveCharSingle(x: char, c: char)
    ensures RemoveChar([x], c) == (if x == c then [] else [x])
  {
    assert [x][1..] == [];
  }

  /** `char::to_ascii_lowercase`: `A`-`Z` become `a`-`z`, nothing else changes. */
  function LowerAsciiChar(c: char): (r: char)
    ensures 'A' <= c <= 'Z' ==> 'a' <= r <= 'z' && r as int - 'a' as int == c as int - 'A' as int
    ensures !('A' <= c <= 'Z') ==> r == c
  {
    if 'A' <= c <= 'Z' then (c as int - 'A' as int + 'a' as int) as char else c
  }

  /** `str::to_ascii_lowercase`. */
  function LowerAscii(s: string): (r: string)
    ensures |r| == |s| && forall i :: 0 <= i < |s| ==> r[i] == LowerAsciiChar(s[i])
  {
    seq(|s|, i requires 0 <= i < |s| => LowerAsciiChar(s[i]))
  }

  /** Lower-casing twice is lower-casing once. */
  lemma LowerAsciiIdempotent(s: string)
    ensures LowerAscii(LowerAscii(s)) == LowerAscii(s)
  {
  }

  /** A text without an upper-case ASCII letter is its own lower case. */
  lemma LowerAsciiOfLower(s: string)
    requires forall i :: 0 <= i < |s| ==> !('A' <= s[i] <= 'Z')
    ensures LowerAscii(s) == s
  {
  }

  /** The first index of character `c` in `s`. */
  function Find(s: string, c: char): (r: Option<nat>)
    ensures r.Some? <==> c in s
    ensures r.Some? ==> r.value < |s| && s[r.value] == c && c !in s[..r.value]
  {
    if s == [] then None
    else if s[0] == c then Some(0)
    else match Find(s[1..], c)
      case None => None
      case Some(i) => assert s[1..][..i] == s[1..i + 1]; Some(i + 1)
  }

  lemma {:induction false} FindAfterPrefix(a: string, c: char, b: string)
    requires c !in a
    ensures Find(a + [c] + b, c) == Some(|a|)
  {
    if a != [] {
      assert (a + [c] + b)[1..] == a[1..] + [c] + b;
      FindAfterPrefix(a[1..], c, b);
    }
  }

  /** `parts` joined with `sep` between consecutive parts (Rust `join`, Python `str.join`). */
  function Join(parts: seq<string>, sep: string): string
    decreases |parts|
  {
    if |parts| == 0 then ""
    else if |parts| == 1 then parts[0]
    else parts[0] + sep + Join(parts[1..], sep)
  }

  /** `s` cut at every occurrence of `c` (Rust `split`, Python `str.split`):
      one more part than there are occurrences, empty parts kept. */
  function SplitOn(s: string, c: char): (parts: seq<string>)
    ensures |parts| > 0
    decreases |s|
  {
    match Find(s, c)
    case None => [s]
    case Some(i) => [s[..i]] + SplitOn(s[i + 1..], c)
  }

  /** Joining with a separator character that no part holds can be undone
      by splitting on it. */
  lemma {:induction false} SplitOnJoin(parts: seq<string>, c: char)
    requires |parts| > 0
    requires forall k :: 0 <= k < |parts| ==> c !in parts[k]
    ensures SplitOn(Join(parts, [c]), c) == parts
    decreases |parts|
  {
    if |parts| > 1 {
      var rest := Join(parts[1..], [c]);
      var s := parts[0] + [c] + rest;
      assert Join(parts, [c]) == s;
      FindAfterPrefix(parts[0], c, rest);
      assert s[..|parts[0]|] == parts[0];
      assert s[|parts[0]| + 1..] == rest;
      SplitOnJoin(parts[1..], c);
      assert parts == [parts[0]] + parts[1..];
    }
  }

  /** Every element of `s` is distinct. */
  predicate Distinct<T(==)>(s: seq<T>) {
    forall i, j :: 0 <= i < j < |s| ==> s[i] != s[j]
  }

  /** `n` written in the base `|digits|`, most significant digit first and
      without leading zeros ("0" for zero), as `format!("{}")` and
      `format!("{:x}")` render integers. */
  function DigitsOf(n: nat, digits: string): (s: string)
    requires |digits| >= 2
    decreases n
  {
    if n < |digits| then [digits[n]]
    else DigitsOf(n / |digits|, digits) + [digits[n % |digits|]]
  }

  /** The number a digit string denotes; `None` when it is empty or holds a
      character that is not a digit. */
  function ValueOf(s: string, digits: string): (r: Option<nat>)
    decreases |s|
  {
    if s == [] then None
    else
      match Find(digits, s[|s| - 1])
      case None => None
      case Some(d) =>
        if |s| == 1 then Some(d)
        else match ValueOf(s[..|s| - 1], digits)
          case None => None
          case Some(v) => Some(v * |digits| + d)
  }

  lemma {:induction false} DigitsOfShape(n: nat, digits: string)
    requires |digits| >= 2
    ensures |DigitsOf(n, digits)| > 0
    ensures forall i :: 0 <= i < |DigitsOf(n, digits)| ==> DigitsOf(n, digits)[i] in digits
    ensures |DigitsOf(n, digits)| > 1 ==> DigitsOf(n, digits)[0] in digits[1..]
    decreases n
  {
    var b := |digits|;
    if n >= b {
      DivModSplit(n, b);
      DigitsOfShape(n / b, digits);
      var high := DigitsOf(n / b, digits);
      assert DigitsOf(n, digits) == high + [digits[n % b]];
      assert DigitsOf(n, digits)[0] == high[0];
      if |high| == 1 {
        assert n / b >= 1 && high[0] == digits[n / b] == digits[1..][n / b - 1];
      }
    }
  }

  lemma FindDistinct(digits: string, k: nat)
    requires Distinct(digits) && k < |digits|
    ensures Find(digits, digits[k]) == Some(k)
  {
    assert digits[k] in digits;
    assert forall j :: 0 <= j < |digits| && j != k ==> digits[j] != digits[k];
    assert digits[k] == digits[..k + 1][k];
  }

  lemma DivModSplit(n: nat, b: nat)
    requires b >= 2 && n >= b
    ensures n / b < n && n % b < b && (n / b) * b + n % b == n
  {
  }

  /** Reading back a rendered number gives the number: rendering is injective. */
  lemma {:induction false} ValueOfDigitsOf(n: nat, digits: string)
    requires |digits| >= 2 && Distinct(digits)
    ensures ValueOf(DigitsOf(n, digits), digits) == Some(n)
    decreases n
  {
    var b := |digits|;
    if n < b {
      FindDistinct(digits, n);
    } else {
      DivModSplit(n, b);
      var q, d := n / b, n % b;
      var s := DigitsOf(n, digits);
      var t := DigitsOf(q, digits);
      assert s == t + [digits[d]];
      DigitsOfShape(q, digits);
      assert s[..|s| - 1] == t;
      assert s[|s| - 1] == digits[d];
      FindDistinct(digits, d);
      ValueOfDigitsOf(q, digits);
      assert ValueOf(s, digits) == Some(q * b + d);
      assert q * b + d == n;
    }
  }

  const DecimalDigits := "0123456789"
  const LowerHexDigits := "0123456789abcdef"

  /** `format!("{}", n)` for an unsigned integer. */
  function Decimal(n: nat): (s: string)
    ensures |s| > 0 && forall i :: 0 <= i < |s| ==> s[i] in DecimalDigits
    ensures |s| > 1 ==> s[0] != '0'
  {
    DigitsOfShape(n, DecimalDigits);
    DigitsOf(n, DecimalDigits)
  }

  /** `format!("{:x}", n)`: lower-case hexadecimal without a prefix. */
  function LowerHex(n: nat): (s: string)
    ensures |s| > 0 && forall i :: 0 <= i < |s| ==> s[i] in LowerHexDigits
    ensures |s| > 1 ==> s[0] != '0'
  {
    DigitsOfShape(n, LowerHexDigits);
    DigitsOf(n, LowerHexDigits)
  }

  lemma DecimalRoundTrip(n: nat)
    ensures ValueOf(Decimal(n), DecimalDigits) == Some(n)
  {
    ValueOfDigitsOf(n, DecimalDigits);
  }

  lemma LowerHexRoundTrip(n: nat)
    ensures ValueOf(LowerHex(n), LowerHexDigits) == Some(n)
  {
    ValueOfDigitsOf(n, LowerHexDigits);
  }
}

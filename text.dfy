/**
 * The few std::string operations the disk image reader relies on: find,
 * rfind and substr (with npos modelled as None, or as the wrapped size_t
 * value where the source computes with it), and the decimal rendering
 * that a std::stringstream gives an integer.
 */
module Text {
  import opened Wrappers
  import opened Ints

  /** std::string::find(c, from): the first index at or after `from` holding `c`; None is npos. */
  function Find(s: string, c: char, from: nat): (r: Option<nat>)
    ensures r.Some? ==> from <= r.value < |s| && s[r.value] == c
    ensures r.Some? ==> forall j :: from <= j < r.value ==> s[j] != c
    ensures r.None? ==> forall j :: from <= j < |s| ==> s[j] != c
    decreases |s| - from
  {
    if from >= |s| then None
    else if s[from] == c then Some(from)
    else Find(s, c, from + 1)
  }

  /** std::string::rfind(c): the last index holding `c`; None is npos. */
  function RFind(s: string, c: char): (r: Option<nat>)
    ensures r.Some? ==> r.value < |s| && s[r.value] == c
    ensures r.Some? ==> forall j :: r.value < j < |s| ==> s[j] != c
    ensures r.None? ==> forall j :: 0 <= j < |s| ==> s[j] != c
  {
    if s == [] then None
    else if s[|s| - 1] == c then Some(|s| - 1)
    else RFind(s[..|s| - 1], c)
  }

  /** std::string::substr(pos, len): at most `len` characters from `pos` on. */
  function Substr(s: string, pos: nat, len: nat): (r: string)
    requires pos <= |s|
    ensures |r| <= len
    ensures r == s[pos..if pos + len <= |s| then pos + len else |s|]
  {
    if pos + len <= |s| then s[pos..pos + len] else s[pos..]
  }

  /** Subtraction on size_t: wraps around modulo 2^64. */
  function SizeSub(a: nat, b: nat): (r: nat)
    requires a < TwoTo64 && b < TwoTo64
    ensures r < TwoTo64
    ensures b <= a ==> r == a - b
    ensures a < b ==> r == TwoTo64 + a - b
  {
    (a - b) % TwoTo64
  }

  function DigitChar(d: nat): (c: char)
    requires d < 10
  {
    ('0' as int + d) as char
  }

  predicate IsDigit(c: char)
  {
    '0' <= c <= '9'
  }

  /** How `stream << n` renders a non-negative int: decimal digits, no leading zeros. */
  function DecimalString(n: nat): (s: string)
    ensures |s| > 0
    ensures forall k :: 0 <= k < |s| ==> IsDigit(s[k])
    ensures |s| > 1 ==> s[0] != '0'
  {
    if n < 10 then [DigitChar(n)] else DecimalString(n / 10) + [DigitChar(n % 10)]
  }

  /** The value of a string of decimal digits. */
  function DecimalValue(s: string): nat
    requires forall k :: 0 <= k < |s| ==> IsDigit(s[k])
  {
    if s == [] then 0
    else
      assert IsDigit(s[|s| - 1]);
      DecimalValue(s[..|s| - 1]) * 10 + (s[|s| - 1] as int - '0' as int)
  }

  /** Reading back the digits of DecimalString gives the number. */
  lemma {:induction false} DecimalRoundTrip(n: nat)
    ensures DecimalValue(DecimalString(n)) == n
  {
    if n >= 10 {
      DecimalRoundTrip(n / 10);
      var s := DecimalString(n);
      assert s[..|s| - 1] == DecimalString(n / 10);
    }
  }

  /** Distinct numbers render as distinct strings, behind any common prefix. */
  lemma DecimalStringInjective(prefix: string, a: nat, b: nat)
    requires a != b
    ensures prefix + DecimalString(a) != prefix + DecimalString(b)
  {
    DecimalRoundTrip(a);
    DecimalRoundTrip(b);
    var sa, sb := prefix + DecimalString(a), prefix + DecimalString(b);
    assert sa[|prefix|..] == DecimalString(a) && sb[|prefix|..] == DecimalString(b);
  }
}

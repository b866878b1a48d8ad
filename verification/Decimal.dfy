/** Unsigned decimal numbers: what printf writes for PRIu64 and what parse_uint64 reads. */
module Decimal {
  import opened Bytes

  const UINT64_MAX: nat := 0xFFFF_FFFF_FFFF_FFFF
  const ZERO: byte := 48

  predicate IsDigit(b: byte) {
    ZERO <= b <= ZERO + 9
  }

  ghost predicate AllDigits(s: seq<byte>) {
    forall i :: 0 <= i < |s| ==> IsDigit(s[i])
  }

  function Digits(n: nat): (s: seq<byte>)
    ensures s != []
  {
    if n < 10 then [ZERO + n] else Digits(n / 10) + [ZERO + n % 10]
  }

  function Power10(k: nat): (r: nat)
    ensures r > 0
  {
    if k == 0 then 1 else 10 * Power10(k - 1)
  }

  // The number s spells; non-digits do not occur.
  function Value(s: seq<byte>): nat
    requires forall i :: 0 <= i < |s| ==> IsDigit(s[i])
  {
    if s == [] then 0
    else
      assert IsDigit(s[|s| - 1]);
      10 * Value(s[..|s| - 1]) + (s[|s| - 1] - ZERO)
  }

  lemma {:induction false} ValueOfDigits(n: nat)
    ensures AllDigits(Digits(n)) && Value(Digits(n)) == n
  {
    if n >= 10 {
      ValueOfDigits(n / 10);
      assert Digits(n)[..|Digits(n)| - 1] == Digits(n / 10);
    } else {
      assert Digits(n)[..0] == [];
    }
  }

  lemma {:induction false} PrefixValue(s: seq<byte>, n: nat)
    requires AllDigits(s) && n <= |s|
    ensures Value(s[..n]) <= Value(s)
    decreases |s| - n
  {
    if n < |s| {
      assert s[..n + 1][..n] == s[..n];
      PrefixValue(s, n + 1);
    } else {
      assert s[..n] == s;
    }
  }

  // parse_uint64 succeeds exactly on digit strings whose value fits; the empty string reads as 0.
  ghost predicate Parses(s: seq<byte>) {
    AllDigits(s) && Value(s) <= UINT64_MAX
  }

  method ParseUint64(s: seq<byte>) returns (ok: bool, value: nat)
    ensures ok == Parses(s)
    ensures ok <==> (forall i :: 0 <= i < |s| ==> 48 <= s[i] <= 57) && (AllDigits(s) ==> Value(s) <= 18446744073709551615)
    ensures ok ==> value == Value(s)
  {
    value := 0;
    for i := 0 to |s|
      invariant AllDigits(s[..i]) && value == Value(s[..i]) <= UINT64_MAX
    {
      if s[i] < ZERO || s[i] > ZERO + 9 {
        return false, 0;
      }
      var c := s[i] - ZERO;
      assert s[..i + 1][..i] == s[..i];
      if value > UINT64_MAX / 10 || (value == UINT64_MAX / 10 && c > UINT64_MAX % 10) {
        if AllDigits(s) {
          PrefixValue(s, i + 1);
        }
        return false, 0;
      }
      value := value * 10 + c;
    }
    assert s[..|s|] == s;
    ok := true;
  }
}

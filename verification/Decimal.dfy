/**
 The hand-written decimal conversion and the multicast addresses built with it.
 */
module Decimal {
  import opened CStrings

  const ZERO_DIGIT: byte := 48

  /** Decimal text of `n`, most significant digit first; 0 has no digits at all here. */
  function Digits(n: nat): (d: CString) {
    if n == 0 then [] else Digits(n / 10) + [ZERO_DIGIT + n % 10]
  }

  predicate AllDigits(d: seq<byte>) {
    forall i :: 0 <= i < |d| ==> ZERO_DIGIT <= d[i] < ZERO_DIGIT + 10
  }

  /** The number a digit string denotes: the reading inverse to `Digits`. */
  function Value(d: seq<byte>): int {
    if d == [] then 0 else 10 * Value(d[..|d| - 1]) + (d[|d| - 1] - ZERO_DIGIT)
  }

  lemma {:induction false} DigitsDenote(n: nat)
    ensures AllDigits(Digits(n))
    ensures Value(Digits(n)) == n
    ensures n > 0 ==> Digits(n) != [] && Digits(n)[0] != ZERO_DIGIT
  {
    if n > 0 {
      DigitsDenote(n / 10);
      var d := Digits(n / 10);
      assert Digits(n)[..|d|] == d;
      if n < 10 {
        assert d == [];
      }
    }
  }

  lemma DigitsInjective(m: nat, n: nat)
    requires Digits(m) == Digits(n)
    ensures m == n
  {
    DigitsDenote(m);
    DigitsDenote(n);
  }

  lemma DigitsLength(n: nat)
    requires n < 1000
    ensures |Digits(n)| <= 3
  {
    assert n / 10 / 10 < 10;
    assert |Digits(n / 10 / 10)| <= 1;
    assert |Digits(n / 10)| <= 2;
  }

  method IntegerLength(n: nat) returns (length: nat)
    ensures length == |Digits(n)|
  {
    var m := n;
    length := 0;
    while m != 0
      invariant length + |Digits(m)| == |Digits(n)|
    {
      m := m / 10;
      length := length + 1;
    }
  }

  /** The inner loop: fills `sizeInt` places from the right, using up the number. */
  method WriteDigits(n: nat, str: array<byte>, sizeInt: nat) returns (rest: nat)
    requires sizeInt == |Digits(n)| <= str.Length
    modifies str
    ensures rest == 0
    ensures forall j :: 0 <= j < str.Length ==>
              str[j] == if j < sizeInt then Digits(n)[j] else old(str[j])
  {
    ghost var d := Digits(n);
    rest := n;
    var i := sizeInt - 1;
    while i >= 0
      invariant -1 <= i < sizeInt
      invariant Digits(rest) == d[..i + 1]
      invariant forall j :: 0 <= j < str.Length ==>
          str[j] == if i < j < sizeInt then d[j] else old(str[j])
    {
      assert rest != 0 && d[i] == Digits(rest)[i] == ZERO_DIGIT + rest % 10;
      assert Digits(rest / 10) == d[..i];
      str[i] := rest % 10 + ZERO_DIGIT;
      rest := rest / 10;
      i := i - 1;
    }
  }

  /** Writes the digits and a terminator; `passes` counts runs of the outer loop's body. */
  method MyItoA(n: nat, str: array<byte>) returns (ghost passes: nat)
    requires |Digits(n)| < str.Length
    modifies str
    ensures str[..] == Digits(n) + [0] + old(str[..])[|Digits(n)| + 1..]
    ensures TextOf(str[..]) == Digits(n)
    ensures passes == if n == 0 then 0 else 1
  {
    ghost var was := str[..];
    ghost var d := Digits(n);
    var sizeInt := IntegerLength(n);
    var m: nat := n;
    passes := 0;
    while m != 0
      invariant (m == n && passes == 0) || (m == 0 && passes == 1 && n != 0)
      invariant forall j :: 0 <= j < str.Length ==>
          str[j] == if m == 0 && j < sizeInt then d[j] else was[j]
      decreases m
    {
      m := WriteDigits(m, str, sizeInt);
      passes := passes + 1;
    }
    str[sizeInt] := 0;
    OverlaidIs(str[..], was, 0, d + [0]);
    TextOfPrefix(str[..], d);
  }

  /** "224.0.0." */
  const PREFIX: CString := [50, 50, 52, 46, 48, 46, 48, 46]

  lemma PrefixSpelled()
    ensures Spells(PREFIX, "224.0.0.") && ZERO_DIGIT == '0' as int
  {
  }

  function Address(i: nat): CString {
    PREFIX + Digits(i)
  }

  /** The addresses numbered 1 to `n`, in the order they are issued. */
  function Pool(n: nat): (p: seq<CString>)
    ensures |p| == n
  {
    seq(n, i requires 0 <= i < n => Address(i + 1))
  }

  ghost predicate Distinct<T>(s: seq<T>) {
    forall i, j :: 0 <= i < j < |s| ==> s[i] != s[j]
  }

  lemma AddressInjective(i: nat, j: nat)
    requires Address(i) == Address(j)
    ensures i == j
  {
    assert Digits(i) == Address(i)[|PREFIX|..];
    assert Digits(j) == Address(j)[|PREFIX|..];
    DigitsInjective(i, j);
  }

  /** Whatever its size, the pool never lists an address twice. */
  lemma PoolDistinct(n: nat)
    ensures Distinct(Pool(n))
  {
    forall i, j | 0 <= i < j < n ensures Pool(n)[i] != Pool(n)[j] {
      if Pool(n)[i] == Pool(n)[j] {
        AddressInjective(i + 1, j + 1);
      }
    }
  }

  lemma PoolAddress(n: nat, a: CString)
    requires n < 1000
    requires a in Pool(n)
    ensures exists i :: 1 <= i <= n && a == Address(i)
    ensures |a| <= 11
  {
    var k :| 0 <= k < n && Pool(n)[k] == a;
    assert a == Address(k + 1);
    DigitsLength(k + 1);
  }
}

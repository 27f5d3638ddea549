/**
 Positional numerals over an alphabet of distinct digit characters: the
 repeated-`divmod` encoder behind `_base36` and Python's `str(n)` for a
 natural `n`, and the decoder behind `int(s)` on digit strings.
 */
module Numerals {

  /** At least two digits, pairwise distinct, so each character has one value. */
  predicate ValidAlphabet(alphabet: string)
  {
    |alphabet| >= 2 && forall i, j :: 0 <= i < j < |alphabet| ==> alphabet[i] != alphabet[j]
  }

  /** An alphabet listed in increasing character order is valid. */
  lemma IncreasingValid(alphabet: string)
    requires |alphabet| >= 2
    requires forall i :: 0 < i < |alphabet| ==> alphabet[i - 1] < alphabet[i]
    ensures ValidAlphabet(alphabet)
  {
    forall i, j | 0 <= i < j < |alphabet|
      ensures alphabet[i] < alphabet[j]
    {
      IncreasingApart(alphabet, i, j);
    }
  }

  lemma {:induction false} IncreasingApart(alphabet: string, i: nat, j: nat)
    requires i < j < |alphabet|
    requires forall k :: 0 < k < |alphabet| ==> alphabet[k - 1] < alphabet[k]
    ensures alphabet[i] < alphabet[j]
    decreases j - i
  {
    if j > i + 1 {
      IncreasingApart(alphabet, i, j - 1);
    }
  }

  predicate AllIn(s: string, alphabet: string)
  {
    forall i :: 0 <= i < |s| ==> s[i] in alphabet
  }

  /** The digits of `n` most significant first, with no digit at all for 0. */
  function Digits(n: nat, alphabet: string): (r: string)
    requires ValidAlphabet(alphabet)
    ensures AllIn(r, alphabet)
    ensures n > 0 ==> |r| > 0 && r[0] != alphabet[0]
    ensures n == 0 <==> |r| == 0
    decreases n
  {
    if n == 0 then []
    else Digits(n / |alphabet|, alphabet) + [alphabet[n % |alphabet|]]
  }

  /** The numeral of `n`: the zero digit alone for 0, the digits of `n` otherwise. */
  function Encode(n: nat, alphabet: string): (r: string)
    requires ValidAlphabet(alphabet)
  {
    if n == 0 then [alphabet[0]] else Digits(n, alphabet)
  }

  /** The value of a digit character. */
  function IndexOf(alphabet: string, c: char): (k: nat)
    requires c in alphabet
    ensures k < |alphabet| && alphabet[k] == c
  {
    if alphabet[0] == c then 0 else 1 + IndexOf(alphabet[1..], c)
  }

  lemma IndexOfDigit(alphabet: string, k: nat)
    requires ValidAlphabet(alphabet) && k < |alphabet|
    ensures IndexOf(alphabet, alphabet[k]) == k
  {
  }

  /** Horner evaluation of a digit string, most significant digit first. */
  function Decode(s: string, alphabet: string): nat
    requires AllIn(s, alphabet)
    decreases |s|
  {
    if |s| == 0 then 0
    else Decode(s[..|s| - 1], alphabet) * |alphabet| + IndexOf(alphabet, s[|s| - 1])
  }

  /** A numeral `Encode` can produce: the zero digit alone, or no leading zero digit. */
  predicate Canonical(s: string, alphabet: string)
    requires ValidAlphabet(alphabet)
  {
    AllIn(s, alphabet) && (s == [alphabet[0]] || (|s| > 0 && s[0] != alphabet[0]))
  }

  lemma {:induction false} DecodeDigits(n: nat, alphabet: string)
    requires ValidAlphabet(alphabet)
    ensures Decode(Digits(n, alphabet), alphabet) == n
    decreases n
  {
    if n > 0 {
      var b := |alphabet|;
      var q, r := n / b, n % b;
      var d := Digits(n, alphabet);
      assert d == Digits(q, alphabet) + [alphabet[r]];
      assert d[..|d| - 1] == Digits(q, alphabet);
      DivShrinks(n, b);
      DecodeDigits(q, alphabet);
      IndexOfDigit(alphabet, r);
      assert Decode(d, alphabet) == q * b + r;
      DivMod(n, b);
    }
  }

  lemma DivMod(n: nat, b: nat)
    requires b > 0
    ensures n == (n / b) * b + n % b
  {
  }

  lemma DivShrinks(n: nat, b: nat)
    requires n > 0 && b >= 2
    ensures 0 <= n / b < n
  {
  }

  lemma MulAddDivMod(q: nat, b: nat, k: nat)
    requires k < b
    ensures (q * b + k) / b == q && (q * b + k) % b == k
  {
    var m := q * b + k;
    DivMod(m, b);
    var q', k' := m / b, m % b;
    assert (q' - q) * b == k - k';
    MultipleOfDivisor(q' - q, b);
  }

  lemma MultipleOfDivisor(x: int, b: int)
    requires b > 0
    ensures x >= 1 ==> x * b >= b
    ensures x <= -1 ==> x * b <= -b
  {
  }

  /** Decoding the numeral of `n` gives `n` back. */
  lemma {:induction false} DecodeEncode(n: nat, alphabet: string)
    requires ValidAlphabet(alphabet)
    ensures Decode(Encode(n, alphabet), alphabet) == n
  {
    if n == 0 {
      IndexOfDigit(alphabet, 0);
      assert [alphabet[0]][..0] == [];
    } else {
      DecodeDigits(n, alphabet);
    }
  }

  /** So no two naturals share a numeral. */
  lemma EncodeInjective(a: nat, b: nat, alphabet: string)
    requires ValidAlphabet(alphabet)
    ensures Encode(a, alphabet) == Encode(b, alphabet) ==> a == b
  {
    DecodeEncode(a, alphabet);
    DecodeEncode(b, alphabet);
  }

  lemma {:induction false} DecodeLeadingNonZero(s: string, alphabet: string)
    requires ValidAlphabet(alphabet) && AllIn(s, alphabet)
    requires |s| > 0 && s[0] != alphabet[0]
    ensures Decode(s, alphabet) > 0
    decreases |s|
  {
    if |s| == 1 {
      assert s[..0] == [];
      var k := IndexOf(alphabet, s[0]);
      assert k != 0;
    } else {
      var p := s[..|s| - 1];
      assert p[0] == s[0];
      DecodeLeadingNonZero(p, alphabet);
    }
  }

  lemma {:induction false} DigitsDecode(s: string, alphabet: string)
    requires ValidAlphabet(alphabet) && AllIn(s, alphabet)
    requires |s| == 0 || s[0] != alphabet[0]
    ensures Digits(Decode(s, alphabet), alphabet) == s
    decreases |s|
  {
    if |s| > 0 {
      var b := |alphabet|;
      var p := s[..|s| - 1];
      var k := IndexOf(alphabet, s[|s| - 1]);
      var n := Decode(s, alphabet);
      assert n == Decode(p, alphabet) * b + k;
      if |p| > 0 {
        assert p[0] == s[0];
      }
      DigitsDecode(p, alphabet);
      DecodeLeadingNonZero(s, alphabet);
      MulAddDivMod(Decode(p, alphabet), b, k);
      assert n / b == Decode(p, alphabet) && n % b == k;
      assert s == p + [s[|s| - 1]];
    }
  }

  /** Every canonical numeral is the encoding of its value, so `Encode` is onto the canonical numerals. */
  lemma EncodeDecode(s: string, alphabet: string)
    requires ValidAlphabet(alphabet) && Canonical(s, alphabet)
    ensures Encode(Decode(s, alphabet), alphabet) == s
  {
    if s == [alphabet[0]] {
      IndexOfDigit(alphabet, 0);
      assert s[..0] == [];
    } else {
      DigitsDecode(s, alphabet);
      DecodeLeadingNonZero(s, alphabet);
    }
  }

  function Reverse<T>(s: seq<T>): (r: seq<T>)
    ensures |r| == |s|
  {
    if |s| == 0 then [] else Reverse(s[1..]) + [s[0]]
  }

  lemma {:induction false} ReverseSnoc<T>(s: seq<T>, x: T)
    ensures Reverse(s + [x]) == [x] + Reverse(s)
    decreases |s|
  {
    if |s| == 0 {
      assert Reverse([x]) == Reverse([x][1..]) + [x];
    } else {
      assert (s + [x])[1..] == s[1..] + [x];
      ReverseSnoc(s[1..], x);
    }
  }

  /** The encoder as a loop: remainders of repeated `divmod` collected least significant first, then reversed. */
  method EncodeLoop(num: nat, alphabet: string) returns (s: string)
    requires ValidAlphabet(alphabet)
    ensures s == Encode(num, alphabet)
  {
    if num == 0 {
      return [alphabet[0]];
    }
    var b := |alphabet|;
    var n: nat := num;
    var res: string := [];
    while n != 0
      invariant Digits(n, alphabet) + Reverse(res) == Digits(num, alphabet)
      decreases n
    {
      var q, rem := n / b, n % b;
      DivShrinks(n, b);
      ReverseSnoc(res, alphabet[rem]);
      n := q;
      res := res + [alphabet[rem]];
    }
    s := Reverse(res);
  }
}

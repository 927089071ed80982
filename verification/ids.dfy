/**
 * Job identifiers: ULID strings, their validity check and the order in
 * which the store hands jobs out (ascending id).
 */
module Ids {
  import opened Wrappers

  /** Crockford's Base32 alphabet, upper-case, in ascending character order. */
  const Crockford: string := "0123456789ABCDEFGHJKMNPQRSTVWXYZ"

  /** Number of characters in the canonical text form of a ULID. */
  const UlidLength: nat := 26

  /** `c` is one of the characters of `Crockford` (I, L, O and U are left out). */
  predicate IsCrockford(c: char)
  {
    || '0' <= c <= '9'
    || 'A' <= c <= 'H'
    || c == 'J' || c == 'K'
    || c == 'M' || c == 'N'
    || 'P' <= c <= 'T'
    || 'V' <= c <= 'Z'
  }

  /**
   * The canonical text form of a ULID: 26 Crockford Base32 characters whose
   * first one is at most '7', so that the 48-bit timestamp does not overflow.
   * This approximates what the ULID parser accepts.
   */
  predicate ValidUlid(s: string)
  {
    && |s| == UlidLength
    && '0' <= s[0] <= '7'
    && forall i :: 0 <= i < |s| ==> IsCrockford(s[i])
  }

  /** Why an id was rejected. */
  datatype IdError = WrongLength(length: nat) | InvalidCharacter(at: nat) | TimestampOverflow

  /** Index of the first non-Crockford character of `s` at or after `from`, if any. */
  function FirstInvalid(s: string, from: nat): (r: Option<nat>)
    requires from <= |s|
    ensures r.None? <==> forall i :: from <= i < |s| ==> IsCrockford(s[i])
    ensures r.Some? ==>
      && from <= r.value < |s|
      && !IsCrockford(s[r.value])
      && forall i :: from <= i < r.value ==> IsCrockford(s[i])
    decreases |s| - from
  {
    if from == |s| then None
    else if !IsCrockford(s[from]) then Some(from)
    else FirstInvalid(s, from + 1)
  }

  /**
   * The boundary check on a path id, as a parser that reports why it failed
   * instead of throwing.
   */
  function ParseUlid(s: string): (r: Result<string, IdError>)
    ensures r.Success? <==> ValidUlid(s)
    ensures r.Success? ==> r.value == s
    ensures r.Failure? && r.error.WrongLength? ==> |s| != UlidLength && r.error.length == |s|
    ensures r.Failure? && r.error.InvalidCharacter? ==>
      && |s| == UlidLength
      && r.error.at < |s|
      && !IsCrockford(s[r.error.at])
      && forall i :: 0 <= i < r.error.at ==> IsCrockford(s[i])
    ensures r == Failure(TimestampOverflow) ==> |s| == UlidLength && AllCrockford(s) && s[0] > '7'
  {
    if |s| != UlidLength then Failure(WrongLength(|s|))
    else match FirstInvalid(s, 0)
      case Some(i) => Failure(InvalidCharacter(i))
      case None =>
        if s[0] > '7' then Failure(TimestampOverflow) else Success(s)
  }

  // ---------------------------------------------------------------------
  // Lexicographic order by code point: character by character, and a proper
  // prefix sorts first. It agrees with String.compareTo on strings without
  // supplementary characters, so on every ULID.
  // ---------------------------------------------------------------------

  predicate Less(a: string, b: string)
  {
    if |b| == 0 then false
    else if |a| == 0 then true
    else if a[0] != b[0] then a[0] < b[0]
    else Less(a[1..], b[1..])
  }

  predicate Le(a: string, b: string)
  {
    a == b || Less(a, b)
  }

  lemma {:induction false} LessAsymmetric(a: string, b: string)
    ensures !(Less(a, b) && Less(b, a))
    decreases |a|
  {
    if |a| > 0 && |b| > 0 && a[0] == b[0] {
      LessAsymmetric(a[1..], b[1..]);
    }
  }

  lemma {:induction false} LessTransitive(a: string, b: string, c: string)
    requires Less(a, b) && Less(b, c)
    ensures Less(a, c)
    decreases |a|
  {
    if |a| > 0 && a[0] == b[0] && b[0] == c[0] {
      LessTransitive(a[1..], b[1..], c[1..]);
    }
  }

  lemma {:induction false} LessTotal(a: string, b: string)
    ensures a == b || Less(a, b) || Less(b, a)
    decreases |a|
  {
    if |a| > 0 && |b| > 0 && a[0] == b[0] {
      LessTotal(a[1..], b[1..]);
      if a[1..] == b[1..] {
        assert a == [a[0]] + a[1..] && b == [b[0]] + b[1..];
      }
    }
  }

  /** `Le` is antisymmetric, so a least element is unique. */
  lemma LeAntisymmetric()
    ensures forall a, b :: Le(a, b) && Le(b, a) ==> a == b
  {
    forall a, b | Le(a, b) && Le(b, a)
      ensures a == b
    {
      LessAsymmetric(a, b);
    }
  }

  /** `m` is a least element of `ids`. */
  predicate IsLeast(m: string, ids: set<string>)
  {
    m in ids && forall k :: k in ids ==> Le(m, k)
  }

  /** Adding one id to a set with a least element: the smaller of the two is
      least in the larger set. */
  lemma LeastOfInsert(x: string, rest: set<string>, m: string)
    requires IsLeast(m, rest)
    ensures Less(x, m) ==> IsLeast(x, rest + {x})
    ensures !Less(x, m) ==> IsLeast(m, rest + {x})
  {
    if Less(x, m) {
      forall k | k in rest
        ensures Less(x, k)
      {
        if k != m {
          LessTransitive(x, m, k);
        }
      }
    } else {
      LessTotal(x, m);
    }
  }

  /** Every finite non-empty set of ids has a least element. */
  lemma {:induction false} LeastExists(ids: set<string>)
    requires ids != {}
    ensures exists m :: IsLeast(m, ids)
    decreases |ids|
  {
    var x :| x in ids;
    var rest := ids - {x};
    if rest == {} {
      assert ids == {x};
      assert IsLeast(x, ids);
    } else {
      LeastExists(rest);
      var m :| IsLeast(m, rest);
      LeastOfInsert(x, rest, m);
      assert rest + {x} == ids;
    }
  }

  /** The least id of a non-empty set. */
  function MinId(ids: set<string>): (m: string)
    requires ids != {}
    ensures m in ids
    ensures forall k :: k in ids ==> Le(m, k)
  {
    LeastExists(ids);
    LeAntisymmetric();
    var m :| IsLeast(m, ids);
    m
  }

  // ---------------------------------------------------------------------
  // A ULID's text order is the order of the number it spells. The first 10
  // characters carry the millisecond timestamp, so ascending id means
  // non-decreasing timestamp; ids of one millisecond are ordered by their
  // random part, not by when they were generated.
  // ---------------------------------------------------------------------

  /** The value of one Crockford Base32 digit. */
  function Digit(c: char): (d: nat)
    requires IsCrockford(c)
    ensures d < 32
  {
    if c <= '9' then c as int - '0' as int
    else if c <= 'H' then c as int - 'A' as int + 10
    else if c <= 'K' then c as int - 'J' as int + 18
    else if c <= 'N' then c as int - 'M' as int + 20
    else if c <= 'T' then c as int - 'P' as int + 22
    else c as int - 'V' as int + 27
  }

  /** The digit of each alphabet character is its position in the alphabet. */
  lemma DigitIsAlphabetPosition(i: nat)
    requires i < |Crockford|
    ensures IsCrockford(Crockford[i]) && Digit(Crockford[i]) == i
  {
  }

  /** Every accepted character is the alphabet character at its digit's position. */
  lemma AlphabetAtDigit(c: char)
    requires IsCrockford(c)
    ensures Digit(c) < |Crockford| && Crockford[Digit(c)] == c
  {
  }

  /** Digit values follow character order. */
  lemma DigitMonotone(c1: char, c2: char)
    requires IsCrockford(c1) && IsCrockford(c2)
    ensures c1 < c2 <==> Digit(c1) < Digit(c2)
  {
  }

  function Pow32(n: nat): (p: nat)
    ensures p >= 1
  {
    if n == 0 then 1 else 32 * Pow32(n - 1)
  }

  predicate AllCrockford(s: string)
  {
    forall i :: 0 <= i < |s| ==> IsCrockford(s[i])
  }

  lemma CrockfordTail(s: string)
    requires AllCrockford(s) && |s| > 0
    ensures AllCrockford(s[1..])
  {
    forall i | 0 <= i < |s| - 1
      ensures IsCrockford(s[1..][i])
    {
      assert s[1..][i] == s[i + 1];
    }
  }

  /** The number a Crockford Base32 string spells, most significant digit first. */
  function Value(s: string): nat
    requires AllCrockford(s)
  {
    if |s| == 0 then 0
    else
      CrockfordTail(s);
      Digit(s[0]) * Pow32(|s| - 1) + Value(s[1..])
  }

  /** An n-digit string spells a number below 32^n. */
  lemma {:induction false} ValueBound(s: string)
    requires AllCrockford(s)
    ensures Value(s) < Pow32(|s|)
    decreases |s|
  {
    if |s| > 0 {
      var p := Pow32(|s| - 1);
      CrockfordTail(s);
      ValueBound(s[1..]);
      LeadingDigitBound(Digit(s[0]), p, Value(s[1..]));
    }
  }

  lemma LeadingDigitBound(d: nat, p: nat, rest: nat)
    requires d < 32 && rest < p
    ensures d * p + rest < 32 * p
  {
    assert (d + 1) * p <= 32 * p;
  }

  lemma {:induction false} LeadingDigitDecides(d1: nat, d2: nat, p: nat, r1: nat, r2: nat)
    requires d1 < d2 && r1 < p
    ensures d1 * p + r1 < d2 * p + r2
  {
    assert (d1 + 1) * p <= d2 * p;
  }

  /** For strings of equal length, text order is numeric order. */
  lemma {:induction false} LessIsNumericOrder(a: string, b: string)
    requires AllCrockford(a) && AllCrockford(b) && |a| == |b|
    ensures Less(a, b) <==> Value(a) < Value(b)
    decreases |a|
  {
    if |a| > 0 {
      var p := Pow32(|a| - 1);
      CrockfordTail(a);
      CrockfordTail(b);
      ValueBound(a[1..]);
      ValueBound(b[1..]);
      DigitMonotone(a[0], b[0]);
      DigitMonotone(b[0], a[0]);
      if a[0] == b[0] {
        LessIsNumericOrder(a[1..], b[1..]);
      } else if a[0] < b[0] {
        LeadingDigitDecides(Digit(a[0]), Digit(b[0]), p, Value(a[1..]), Value(b[1..]));
      } else {
        LeadingDigitDecides(Digit(b[0]), Digit(a[0]), p, Value(b[1..]), Value(a[1..]));
      }
    }
  }

  /** A valid ULID spells a number below 2^128: the bound on the first
      character keeps it within 128 bits. */
  lemma UlidFits128Bits(s: string)
    requires ValidUlid(s)
    ensures AllCrockford(s)
    ensures Value(s) < 0x1_0000_0000_0000_0000_0000_0000_0000_0000
  {
    var p := Pow32(25);
    Pow32Of25();
    assert Digit(s[0]) <= 7;
    CrockfordTail(s);
    ValueBound(s[1..]);
    LeadingDigitDecides(Digit(s[0]), 8, p, Value(s[1..]), 0);
  }

  /** 32^25 = 2^125. */
  lemma Pow32Of25()
    ensures Pow32(25) == 0x2000_0000_0000_0000_0000_0000_0000_0000
  {
    Pow32Of5();
    PowAdd(5, 5);
    PowAdd(10, 5);
    PowAdd(15, 5);
    PowAdd(20, 5);
  }

  lemma Pow32Of5()
    ensures Pow32(5) == 0x200_0000
  {
    assert Pow32(1) == 32;
    assert Pow32(2) == 1024;
    assert Pow32(3) == 32768;
    assert Pow32(4) == 1048576;
  }

  lemma {:induction false} PowAdd(m: nat, n: nat)
    ensures Pow32(m + n) == Pow32(m) * Pow32(n)
    decreases n
  {
    if n > 0 {
      PowAdd(m, n - 1);
      assert Pow32(m + n) == 32 * Pow32(m + n - 1);
    }
  }
}

/// The JavaScript string operations the scripts rely on: `split`,
/// `Number.prototype.toString(base)`, `parseInt`/`Number` on digit strings.
module Text {
  import opened Arith

  /** The lower-case digit character for `d`. */
  function DigitChar(d: nat): char
    requires d < 16
  {
    if d < 10 then ('0' as int + d) as char else ('a' as int + d - 10) as char
  }

  /** The value of a lower-case digit character; 16 for anything else. */
  function DigitValue(ch: char): (d: nat)
    ensures d <= 16
    ensures d < 16 ==> DigitChar(d) == ch
  {
    if '0' <= ch <= '9' then ch as int - '0' as int
    else if 'a' <= ch <= 'f' then ch as int - 'a' as int + 10
    else 16
  }

  predicate AllDigits(s: string, base: nat)
  {
    forall i :: 0 <= i < |s| ==> DigitValue(s[i]) < base
  }

  /** `n.toString(base)`: no sign, no leading zeros, "0" for zero. */
  function ToBase(n: nat, base: nat): (s: string)
    requires 2 <= base <= 16
    ensures 1 <= |s| && AllDigits(s, base)
    decreases n
  {
    if n < base then DigitRoundTrip(n); [DigitChar(n)]
    else
      DivShrinks(n, base);
      DigitRoundTrip(n % base);
      ToBase(n / base, base) + [DigitChar(n % base)]
  }

  /** The value of a string of digits, most significant first. */
  function FromBase(s: string, base: nat): nat
  {
    if s == [] then 0
    else FromBase(s[..|s| - 1], base) * base + DigitValue(s[|s| - 1])
  }

  lemma DigitRoundTrip(d: nat)
    requires d < 16
    ensures DigitValue(DigitChar(d)) == d
  {
  }

  /** Reading back what `toString(base)` wrote gives the number. */
  lemma {:induction false} FromToBase(n: nat, base: nat)
    requires 2 <= base <= 16
    ensures FromBase(ToBase(n, base), base) == n
    decreases n
  {
    var s := ToBase(n, base);
    DigitRoundTrip(n % base);
    if n < base {
      assert s[..0] == [];
      assert FromBase(s, base) == FromBase([], base) * base + DigitValue(s[0]);
    } else {
      var hi, lo := n / base, n % base;
      DivShrinks(n, base);
      FromToBase(hi, base);
      DivModDecompose(n, base);
      assert s[..|s| - 1] == ToBase(hi, base);
      assert DigitValue(s[|s| - 1]) == lo;
      assert FromBase(s, base) == hi * base + lo;
    }
  }

  /** `toString(base)` needs at most `k` digits exactly when `n < base^k`. */
  lemma {:induction false} ToBaseLength(n: nat, base: nat, k: nat)
    requires 2 <= base <= 16 && k >= 1
    ensures |ToBase(n, base)| <= k <==> n < Pow(base, k)
    decreases n
  {
    PowPositive(base, k - 1);
    if n < base {
      MulMonotone(1, Pow(base, k - 1), base);
    } else if k == 1 {
      assert |ToBase(n, base)| >= 2;
    } else {
      DivShrinks(n, base);
      ToBaseLength(n / base, base, k - 1);
      DivLessIff(n, base, Pow(base, k - 1));
    }
  }

  /** `FromBase` of a concatenation: the high part is shifted by the low part's length. */
  lemma {:induction false} FromBaseAppend(s: string, t: string, base: nat)
    ensures FromBase(s + t, base) == FromBase(s, base) * Pow(base, |t|) + FromBase(t, base)
    decreases |t|
  {
    if t == [] {
      assert s + t == s;
    } else {
      var t' := t[..|t| - 1];
      var d := DigitValue(t[|t| - 1]);
      assert (s + t)[..|s + t| - 1] == s + t';
      assert (s + t)[|s + t| - 1] == t[|t| - 1];
      FromBaseAppend(s, t', base);
      var hs, ht, pw := FromBase(s, base), FromBase(t', base), Pow(base, |t'|);
      assert FromBase(s + t, base) == (hs * pw + ht) * base + d;
      assert FromBase(t, base) == ht * base + d;
      assert Pow(base, |t|) == base * pw;
      MulDistribAssoc(hs, pw, ht, base);
    }
  }

  /** A string of `k` digits below `base` has a value below `base^k`. */
  lemma {:induction false} FromBaseBound(s: string, base: nat)
    requires base >= 1 && AllDigits(s, base)
    ensures FromBase(s, base) < Pow(base, |s|)
    decreases |s|
  {
    if s != [] {
      var s' := s[..|s| - 1];
      var v', d := FromBase(s', base), DigitValue(s[|s| - 1]);
      FromBaseBound(s', base);
      MulMonotone(v' + 1, Pow(base, |s'|), base);
      assert FromBase(s, base) == v' * base + d;
      assert (v' + 1) * base == v' * base + base;
      assert Pow(base, |s|) == base * Pow(base, |s'|);
    }
  }

  /** `s.split(d)`: the pieces between occurrences of `d`, always at least one. */
  function Split(s: string, d: char): (parts: seq<string>)
    ensures |parts| >= 1
  {
    if s == [] then [[]]
    else
      var rest := Split(s[1..], d);
      if s[0] == d then [[]] + rest else [[s[0]] + rest[0]] + rest[1..]
  }

  /** `parts.join(d)`. */
  function Join(parts: seq<string>, d: char): string
  {
    if parts == [] then []
    else if |parts| == 1 then parts[0]
    else parts[0] + [d] + Join(parts[1..], d)
  }

  /** Joining the pieces back with the separator gives the original text. */
  lemma {:induction false} JoinSplit(s: string, d: char)
    ensures Join(Split(s, d), d) == s
  {
    if s != [] {
      var rest := Split(s[1..], d);
      JoinSplit(s[1..], d);
      if s[0] == d {
        assert Split(s, d)[1..] == rest;
      } else {
        var parts := Split(s, d);
        assert parts[1..] == rest[1..];
        if |rest| > 1 {
          assert rest[1..] == rest[1..];
          assert Join(rest, d) == rest[0] + [d] + Join(rest[1..], d);
        }
      }
    }
  }

  /** No piece contains the separator. */
  lemma {:induction false} SplitPiecesFree(s: string, d: char)
    ensures forall i :: 0 <= i < |Split(s, d)| ==> d !in Split(s, d)[i]
  {
    if s != [] {
      SplitPiecesFree(s[1..], d);
    }
  }

  /** A JavaScript number as `Number(s)` produces it from a symbol-file field. */
  datatype JsNumber = Int(value: int) | NaN

  /** `Number(s)` on the strings a symbol file holds: "" is 0, an optional
      minus sign followed by decimal digits is that integer, anything else
      is NaN. */
  function ParseNumber(s: string): JsNumber
  {
    if s == [] then Int(0)
    else if s[0] == '-' && |s| > 1 && AllDigits(s[1..], 10) then Int(-(FromBase(s[1..], 10) as int))
    else if AllDigits(s, 10) then Int(FromBase(s, 10))
    else NaN
  }

  /** `Number` reads back what `toString()` wrote, for either sign. */
  lemma ParseDecimal(n: nat)
    ensures ParseNumber(ToBase(n, 10)) == Int(n)
    ensures ParseNumber("-" + ToBase(n, 10)) == Int(-(n as int))
  {
    FromToBase(n, 10);
    var s := ToBase(n, 10);
    assert ("-" + s)[1..] == s;
    assert s[0] != '-' by {
      assert DigitValue(s[0]) < 10;
    }
  }

  /** Distinct numbers print as distinct decimal strings. */
  lemma DecimalInjective(m: nat, n: nat)
    requires ToBase(m, 10) == ToBase(n, 10)
    ensures m == n
  {
    FromToBase(m, 10);
    FromToBase(n, 10);
  }
}

/**
  The few Python built-ins whose exact behaviour the core relies on:
  the stable `list.sort`, slicing `s[:n]`, `str(n)` on integers,
  `str.zfill` and `int(...)` applied to a two-character string.
 */
module PythonBuiltins {
  import opened Wrappers

  // ---------------------------------------------------------------------------
  // Stable descending sort (list.sort(key=..., reverse=True), or ascending on
  // the negated key: both keep equal-key elements in their original order)
  // ---------------------------------------------------------------------------

  /** The elements of `s` whose key is `k`, in their original order. */
  function KeyFilter<T>(s: seq<T>, key: T -> int, k: int): seq<T>
  {
    if s == [] then []
    else (if key(s[0]) == k then [s[0]] else []) + KeyFilter(s[1..], key, k)
  }

  predicate SortedDesc<T>(s: seq<T>, key: T -> int)
  {
    forall i, j :: 0 <= i < j < |s| ==> key(s[i]) >= key(s[j])
  }

  /** Places `x` in front of the first element whose key does not exceed its own. */
  function InsertDesc<T>(x: T, s: seq<T>, key: T -> int): seq<T>
  {
    if s == [] || key(s[0]) <= key(x) then [x] + s
    else [s[0]] + InsertDesc(x, s[1..], key)
  }

  /** Python's stable sort by descending key. */
  function SortDesc<T>(s: seq<T>, key: T -> int): seq<T>
  {
    if s == [] then [] else InsertDesc(s[0], SortDesc(s[1..], key), key)
  }

  predicate AllAtMost<T>(s: seq<T>, key: T -> int, bound: int)
  {
    forall i :: 0 <= i < |s| ==> key(s[i]) <= bound
  }

  lemma {:induction false} InsertDescBounded<T>(x: T, s: seq<T>, key: T -> int, bound: int)
    requires AllAtMost(s, key, bound) && key(x) <= bound
    ensures AllAtMost(InsertDesc(x, s, key), key, bound)
  {
    if s != [] && key(s[0]) > key(x) {
      InsertDescBounded(x, s[1..], key, bound);
    }
  }

  /** A head no lower than everything after it extends a descending sequence. */
  lemma ConsSorted<T>(h: T, r: seq<T>, key: T -> int)
    requires SortedDesc(r, key) && AllAtMost(r, key, key(h))
    ensures SortedDesc([h] + r, key)
  {
    var t := [h] + r;
    forall i, j | 0 <= i < j < |t| ensures key(t[i]) >= key(t[j]) {
      assert t[j] == r[j - 1];
      if i > 0 {
        assert t[i] == r[i - 1];
      }
    }
  }

  lemma {:induction false} InsertDescSorted<T>(x: T, s: seq<T>, key: T -> int)
    requires SortedDesc(s, key)
    ensures SortedDesc(InsertDesc(x, s, key), key)
    ensures multiset(InsertDesc(x, s, key)) == multiset(s) + multiset{x}
  {
    InsertDescPermutation(x, s, key);
    if s == [] || key(s[0]) <= key(x) {
      ConsSorted(x, s, key);
    } else {
      var tail := s[1..];
      assert SortedDesc(tail, key) by {
        forall i, j | 0 <= i < j < |tail| ensures key(tail[i]) >= key(tail[j]) {
          assert tail[i] == s[i + 1] && tail[j] == s[j + 1];
        }
      }
      assert AllAtMost(tail, key, key(s[0])) by {
        forall i | 0 <= i < |tail| ensures key(tail[i]) <= key(s[0]) {
          assert tail[i] == s[i + 1];
        }
      }
      InsertDescSorted(x, tail, key);
      InsertDescBounded(x, tail, key, key(s[0]));
      ConsSorted(s[0], InsertDesc(x, tail, key), key);
    }
  }

  lemma {:induction false} InsertDescPermutation<T>(x: T, s: seq<T>, key: T -> int)
    ensures multiset(InsertDesc(x, s, key)) == multiset(s) + multiset{x}
  {
    if s != [] && key(s[0]) > key(x) {
      InsertDescPermutation(x, s[1..], key);
      assert s == [s[0]] + s[1..];
    }
  }

  lemma {:induction false} InsertDescFilter<T>(x: T, s: seq<T>, key: T -> int, k: int)
    ensures KeyFilter(InsertDesc(x, s, key), key, k) ==
            (if key(x) == k then [x] + KeyFilter(s, key, k) else KeyFilter(s, key, k))
  {
    var r := InsertDesc(x, s, key);
    var own := if key(x) == k then [x] else [];
    if s == [] || key(s[0]) <= key(x) {
      assert r[0] == x && r[1..] == s;
      assert KeyFilter(r, key, k) == own + KeyFilter(s, key, k);
    } else {
      var inner := InsertDesc(x, s[1..], key);
      var head := if key(s[0]) == k then [s[0]] else [];
      InsertDescFilter(x, s[1..], key, k);
      assert r[0] == s[0] && r[1..] == inner;
      assert KeyFilter(r, key, k) == head + KeyFilter(inner, key, k);
      assert KeyFilter(s, key, k) == head + KeyFilter(s[1..], key, k);
      assert key(x) == k ==> head == [];
    }
  }

  /** The sort yields a descending sequence. */
  lemma {:induction false} SortDescSorted<T>(s: seq<T>, key: T -> int)
    ensures SortedDesc(SortDesc(s, key), key)
  {
    if s != [] {
      SortDescSorted(s[1..], key);
      InsertDescSorted(s[0], SortDesc(s[1..], key), key);
    }
  }

  /** The sort yields a permutation of its input. */
  lemma {:induction false} SortDescPermutation<T>(s: seq<T>, key: T -> int)
    ensures multiset(SortDesc(s, key)) == multiset(s)
    ensures |SortDesc(s, key)| == |s|
  {
    if s != [] {
      SortDescPermutation(s[1..], key);
      SortDescSorted(s[1..], key);
      InsertDescSorted(s[0], SortDesc(s[1..], key), key);
      assert s == [s[0]] + s[1..];
    }
  }

  /** Stability: for every key, the elements with that key keep their input order. */
  lemma {:induction false} SortDescStable<T>(s: seq<T>, key: T -> int, k: int)
    ensures KeyFilter(SortDesc(s, key), key, k) == KeyFilter(s, key, k)
  {
    if s != [] {
      SortDescStable(s[1..], key, k);
      SortDescSorted(s[1..], key);
      InsertDescFilter(s[0], SortDesc(s[1..], key), key, k);
    }
  }

  lemma {:induction false} KeyFilterHead<T>(s: seq<T>, key: T -> int)
    requires s != []
    ensures KeyFilter(s, key, key(s[0])) == [s[0]] + KeyFilter(s[1..], key, key(s[0]))
  {
  }

  lemma {:induction false} KeyFilterEmpty<T>(s: seq<T>, key: T -> int, i: nat)
    requires i < |s|
    ensures KeyFilter(s, key, key(s[i])) != []
  {
    if i > 0 {
      KeyFilterEmpty(s[1..], key, i - 1);
    }
  }

  lemma {:induction false} KeyFilterMember<T>(s: seq<T>, key: T -> int, k: int)
    requires KeyFilter(s, key, k) != []
    ensures exists i :: 0 <= i < |s| && key(s[i]) == k
  {
    if key(s[0]) != k {
      KeyFilterMember(s[1..], key, k);
      var i :| 0 <= i < |s[1..]| && key(s[1..][i]) == k;
      assert key(s[i + 1]) == k;
    }
  }

  lemma NoKeysMeansEmpty<T>(s: seq<T>, key: T -> int)
    requires forall k :: KeyFilter(s, key, k) == []
    ensures s == []
  {
    if s != [] {
      KeyFilterEmpty(s, key, 0);
    }
  }

  /**
    A descending sequence is determined by its per-key subsequences, so any
    stable sort (Python's Timsort included) gives the output of SortDesc.
   */
  lemma {:induction false} StableSortUnique<T>(a: seq<T>, b: seq<T>, key: T -> int)
    requires SortedDesc(a, key) && SortedDesc(b, key)
    requires forall k :: KeyFilter(a, key, k) == KeyFilter(b, key, k)
    ensures a == b
  {
    if a == [] {
      NoKeysMeansEmpty(b, key);
    } else if b == [] {
      NoKeysMeansEmpty(a, key);
    } else {
      KeyFilterMember(a, key, key(b[0]));
      KeyFilterMember(b, key, key(a[0]));
      assert key(a[0]) == key(b[0]);
      var k0 := key(a[0]);
      KeyFilterHead(a, key);
      KeyFilterHead(b, key);
      assert KeyFilter(a, key, k0)[0] == a[0];
      assert KeyFilter(b, key, k0)[0] == b[0];
      assert KeyFilter(a, key, k0) == KeyFilter(b, key, k0);
      forall k ensures KeyFilter(a[1..], key, k) == KeyFilter(b[1..], key, k) {
        assert KeyFilter(a, key, k) == (if key(a[0]) == k then [a[0]] else []) + KeyFilter(a[1..], key, k);
        assert KeyFilter(b, key, k) == (if key(b[0]) == k then [b[0]] else []) + KeyFilter(b[1..], key, k);
        assert KeyFilter(a, key, k) == KeyFilter(b, key, k);
        if key(a[0]) == k {
          assert KeyFilter(a[1..], key, k) == KeyFilter(a, key, k)[1..];
          assert KeyFilter(b[1..], key, k) == KeyFilter(b, key, k)[1..];
        } else {
          assert KeyFilter(a[1..], key, k) == KeyFilter(a, key, k);
          assert KeyFilter(b[1..], key, k) == KeyFilter(b, key, k);
        }
      }
      StableSortUnique(a[1..], b[1..], key);
      assert a == [a[0]] + a[1..] && b == [b[0]] + b[1..];
    }
  }

  /** `x` occurs somewhere before `y` in `s`. */
  ghost predicate Before<T>(x: T, y: T, s: seq<T>)
  {
    exists i, j :: 0 <= i < j < |s| && s[i] == x && s[j] == y
  }

  lemma {:induction false} KeyFilterMembers<T>(s: seq<T>, key: T -> int, k: int)
    ensures forall x :: x in KeyFilter(s, key, k) <==> x in s && key(x) == k
  {
    if s != [] {
      KeyFilterMembers(s[1..], key, k);
      assert s == [s[0]] + s[1..];
    }
  }

  /** Two elements with key k keep their relative order in the key-k subsequence. */
  lemma {:induction false} BeforeInKeyFilter<T>(s: seq<T>, key: T -> int, k: int, i: nat, j: nat)
    requires i < j < |s| && key(s[i]) == k && key(s[j]) == k
    ensures Before(s[i], s[j], KeyFilter(s, key, k))
  {
    var f := KeyFilter(s, key, k);
    var rest := KeyFilter(s[1..], key, k);
    if i == 0 {
      assert f == [s[0]] + rest;
      KeyFilterMembers(s[1..], key, k);
      assert s[j] == s[1..][j - 1];
      assert s[j] in rest;
      var q :| 0 <= q < |rest| && rest[q] == s[j];
      assert f[0] == s[0] && f[q + 1] == s[j];
    } else {
      BeforeInKeyFilter(s[1..], key, k, i - 1, j - 1);
      assert s[1..][i - 1] == s[i] && s[1..][j - 1] == s[j];
      var p, q :| 0 <= p < q < |rest| && rest[p] == s[i] && rest[q] == s[j];
      if key(s[0]) == k {
        assert f == [s[0]] + rest;
        assert f[p + 1] == s[i] && f[q + 1] == s[j];
      } else {
        assert f == rest;
      }
    }
  }

  /** Order in a key subsequence is order in the whole sequence. */
  lemma {:induction false} BeforeFromKeyFilter<T>(s: seq<T>, key: T -> int, k: int, x: T, y: T)
    requires Before(x, y, KeyFilter(s, key, k))
    ensures Before(x, y, s)
  {
    var f := KeyFilter(s, key, k);
    var rest := KeyFilter(s[1..], key, k);
    var p, q :| 0 <= p < q < |f| && f[p] == x && f[q] == y;
    if key(s[0]) == k {
      assert f == [s[0]] + rest;
      if p == 0 {
        KeyFilterMembers(s[1..], key, k);
        assert y == rest[q - 1] && y in s[1..];
        var m :| 0 <= m < |s[1..]| && s[1..][m] == y;
        assert s[0] == x && s[m + 1] == y;
      } else {
        assert rest[p - 1] == x && rest[q - 1] == y;
        BeforeFromKeyFilter(s[1..], key, k, x, y);
        var a, b :| 0 <= a < b < |s[1..]| && s[1..][a] == x && s[1..][b] == y;
        assert s[a + 1] == x && s[b + 1] == y;
      }
    } else {
      assert f == rest;
      BeforeFromKeyFilter(s[1..], key, k, x, y);
      var a, b :| 0 <= a < b < |s[1..]| && s[1..][a] == x && s[1..][b] == y;
      assert s[a + 1] == x && s[b + 1] == y;
    }
  }

  /** Stability, pointwise: equal-key elements of the sorted output appear in input order. */
  lemma SortDescKeepsTies<T>(s: seq<T>, key: T -> int, i: nat, j: nat)
    requires i < j < |SortDesc(s, key)| && key(SortDesc(s, key)[i]) == key(SortDesc(s, key)[j])
    ensures Before(SortDesc(s, key)[i], SortDesc(s, key)[j], s)
  {
    var t := SortDesc(s, key);
    var k := key(t[i]);
    BeforeInKeyFilter(t, key, k, i, j);
    SortDescStable(s, key, k);
    BeforeFromKeyFilter(s, key, k, t[i], t[j]);
  }

  /** An element whose key beats the key at position `j` of the output is placed before `j`. */
  lemma SortDescHigherFirst<T>(s: seq<T>, key: T -> int, x: T, j: nat)
    requires x in s && j < |SortDesc(s, key)| && key(x) > key(SortDesc(s, key)[j])
    ensures exists i :: 0 <= i < j && SortDesc(s, key)[i] == x
  {
    var t := SortDesc(s, key);
    SortDescPermutation(s, key);
    SortDescSorted(s, key);
    assert x in multiset(t);
    var p :| 0 <= p < |t| && t[p] == x;
    assert p < j;
  }

  /** Every element of the output comes from the input. */
  lemma SortDescMembers<T>(s: seq<T>, key: T -> int)
    ensures forall i :: 0 <= i < |SortDesc(s, key)| ==> SortDesc(s, key)[i] in s
  {
    SortDescPermutation(s, key);
    forall i | 0 <= i < |SortDesc(s, key)| ensures SortDesc(s, key)[i] in s {
      assert SortDesc(s, key)[i] in multiset(SortDesc(s, key));
    }
  }

  // ---------------------------------------------------------------------------
  // Slicing s[:n]
  // ---------------------------------------------------------------------------

  /** Python's `s[:n]`: a negative `n` counts from the end, an `n` past the end takes everything. */
  function SliceTo<T>(s: seq<T>, n: int): (r: seq<T>)
    ensures |r| <= |s| && r == s[..|r|]
    ensures n >= 0 ==> |r| == (if n <= |s| then n else |s|)
    ensures n < 0 ==> |r| == (if |s| + n >= 0 then |s| + n else 0)
  {
    if n >= 0 then (if n <= |s| then s[..n] else s)
    else if |s| + n >= 0 then s[..|s| + n]
    else []
  }

  // ---------------------------------------------------------------------------
  // Decimal text: str(n), zfill and int()
  // ---------------------------------------------------------------------------

  predicate IsDigit(c: char) { '0' <= c <= '9' }

  function DigitChar(d: nat): (c: char)
    requires d < 10
    ensures IsDigit(c) && c as int - '0' as int == d
  {
    (d + '0' as int) as char
  }

  function DigitValue(c: char): nat
    requires IsDigit(c)
  {
    c as int - '0' as int
  }

  predicate AllDigits(s: string) { forall i :: 0 <= i < |s| ==> IsDigit(s[i]) }

  /** The number written by a string of decimal digits. */
  function DecimalValue(s: string): nat
    requires AllDigits(s)
  {
    if s == [] then 0 else 10 * DecimalValue(s[..|s| - 1]) + DigitValue(s[|s| - 1])
  }

  /** `str(n)` for n >= 0: the decimal digits of n, without leading zeros. */
  function NatToDecimal(n: nat): string
  {
    if n < 10 then [DigitChar(n)] else NatToDecimal(n / 10) + [DigitChar(n % 10)]
  }

  /** `str(n)` for any Python int. */
  function IntToStr(n: int): string
  {
    if n < 0 then "-" + NatToDecimal(-n) else NatToDecimal(n)
  }

  function Pow10(k: nat): (p: nat)
    ensures p >= 1
  {
    if k == 0 then 1 else 10 * Pow10(k - 1)
  }

  /** Reading back the digits of `str(n)` gives `n`; the text is non-empty and starts with a non-zero digit unless n is 0. */
  lemma {:induction false} NatToDecimalRoundTrip(n: nat)
    ensures AllDigits(NatToDecimal(n)) && DecimalValue(NatToDecimal(n)) == n
    ensures NatToDecimal(n) != [] && (n > 0 ==> NatToDecimal(n)[0] != '0')
  {
    var s := NatToDecimal(n);
    if n >= 10 {
      NatToDecimalRoundTrip(n / 10);
      assert s[..|s| - 1] == NatToDecimal(n / 10);
    }
  }

  /** `str(n)` has exactly k digits when 10^(k-1) <= n < 10^k. */
  lemma {:induction false} NatToDecimalLength(n: nat, k: nat)
    requires k >= 1 && (k == 1 || Pow10(k - 1) <= n) && n < Pow10(k)
    ensures |NatToDecimal(n)| == k
  {
    if k > 1 {
      if k - 1 == 1 {
        assert 10 <= n < 100;
        assert 1 <= n / 10 < 10;
      } else {
        assert Pow10(k - 1) == 10 * Pow10(k - 2);
        assert Pow10(k - 2) <= n / 10;
      }
      NatToDecimalLength(n / 10, k - 1);
    } else {
      assert n < 10;
    }
  }

  /** A number with no leading zero and k digits is at least 10^(k-1). */
  lemma {:induction false} LeadingDigitBound(s: string)
    requires AllDigits(s) && |s| >= 1 && s[0] != '0'
    ensures DecimalValue(s) >= Pow10(|s| - 1)
  {
    if |s| > 1 {
      var init := s[..|s| - 1];
      assert init[0] == s[0];
      LeadingDigitBound(init);
    } else {
      assert s[..0] == [];
    }
  }

  /** A string of k digits is worth less than 10^k. */
  lemma {:induction false} DecimalBound(s: string)
    requires AllDigits(s)
    ensures DecimalValue(s) < Pow10(|s|)
  {
    if s != [] {
      DecimalBound(s[..|s| - 1]);
    }
  }

  lemma {:induction false} Pow10Monotone(i: nat, j: nat)
    requires i <= j
    ensures Pow10(i) <= Pow10(j)
  {
    if i < j {
      Pow10Monotone(i, j - 1);
    }
  }

  /** `str(n)` has exactly k digits if and only if 10^(k-1) <= n < 10^k (with 0 counted as one digit). */
  lemma NatToDecimalLengthIff(n: nat, k: nat)
    ensures |NatToDecimal(n)| == k <==> k >= 1 && (k == 1 || Pow10(k - 1) <= n) && n < Pow10(k)
  {
    var s := NatToDecimal(n);
    if |s| == k {
      NatToDecimalRoundTrip(n);
      DecimalBound(s);
      if k > 1 {
        assert n >= 10;
        LeadingDigitBound(s);
      }
    }
    if k >= 1 && (k == 1 || Pow10(k - 1) <= n) && n < Pow10(k) {
      NatToDecimalLength(n, k);
    }
  }

  function Zeros(k: nat): (z: string)
    ensures |z| == k && forall i :: 0 <= i < k ==> z[i] == '0'
  {
    if k == 0 then [] else "0" + Zeros(k - 1)
  }

  /** `s.zfill(width)`: pad with '0' to `width`, after a leading sign; never shortens. */
  function ZFill(s: string, width: nat): string
  {
    if |s| >= width then s
    else if |s| > 0 && (s[0] == '+' || s[0] == '-') then [s[0]] + Zeros(width - |s|) + s[1..]
    else Zeros(width - |s|) + s
  }

  /** zfill never truncates: an unsigned text is kept whole as a suffix and the length is max(|s|, width). */
  lemma ZFillKeepsText(s: string, width: nat)
    requires s == [] || (s[0] != '+' && s[0] != '-')
    ensures |ZFill(s, width)| == (if |s| >= width then |s| else width)
    ensures ZFill(s, width)[|ZFill(s, width)| - |s|..] == s
    ensures forall i :: 0 <= i < |ZFill(s, width)| - |s| ==> ZFill(s, width)[i] == '0'
  {
  }

  lemma {:induction false} DecimalValueLeadingZeros(k: nat, s: string)
    requires AllDigits(s)
    ensures AllDigits(Zeros(k) + s) && DecimalValue(Zeros(k) + s) == DecimalValue(s)
  {
    if s == [] {
      ZerosValue(k);
      assert Zeros(k) + s == Zeros(k);
    } else {
      var t := Zeros(k) + s;
      assert t[..|t| - 1] == Zeros(k) + s[..|s| - 1];
      DecimalValueLeadingZeros(k, s[..|s| - 1]);
    }
  }

  lemma {:induction false} ZerosValue(k: nat)
    ensures AllDigits(Zeros(k)) && DecimalValue(Zeros(k)) == 0
  {
    if k > 0 {
      assert Zeros(k)[..k - 1] == Zeros(k - 1);
      ZerosValue(k - 1);
    }
  }

  /** Zero padding a number's digits keeps its value: int(str(n).zfill(w)) == n. */
  lemma ZFillRoundTrip(n: nat, width: nat)
    ensures AllDigits(ZFill(NatToDecimal(n), width))
    ensures DecimalValue(ZFill(NatToDecimal(n), width)) == n
  {
    var s := NatToDecimal(n);
    NatToDecimalRoundTrip(n);
    if |s| < width {
      assert IsDigit(s[0]);
      assert ZFill(s, width) == Zeros(width - |s|) + s;
      DecimalValueLeadingZeros(width - |s|, s);
    }
  }

  /**
    The ASCII whitespace `int()` strips from an ASCII string: space, \t, \n,
    \v, \f and \r. The separators \x1c..\x1f count for `str.isspace` but not here.
   */
  predicate IsPySpace(c: char)
  {
    c == ' ' || ('\U{9}' <= c <= '\U{D}')
  }

  /**
    `int(s)` for a two-character string: two digits, a sign and a digit, or
    one digit with whitespace on one side; anything else raises ValueError (None).
   */
  function PyIntOfTwo(s: string): Option<int>
    requires |s| == 2
  {
    if IsDigit(s[0]) && IsDigit(s[1]) then Some(10 * DigitValue(s[0]) + DigitValue(s[1]))
    else if (s[0] == '+' || IsPySpace(s[0])) && IsDigit(s[1]) then Some(DigitValue(s[1]))
    else if s[0] == '-' && IsDigit(s[1]) then Some(0 - DigitValue(s[1]) as int)
    else if IsDigit(s[0]) && IsPySpace(s[1]) then Some(DigitValue(s[0]))
    else None
  }

  /** `int()` reads back every zero-padded two-digit text: int(str(n).zfill(2)) == n. */
  lemma PyIntOfTwoRoundTrip(n: nat)
    requires n < 100
    ensures |ZFill(NatToDecimal(n), 2)| == 2
    ensures PyIntOfTwo(ZFill(NatToDecimal(n), 2)) == Some(n)
  {
    var s := ZFill(NatToDecimal(n), 2);
    if n < 10 {
      NatToDecimalLength(n, 1);
    } else {
      NatToDecimalLength(n, 2);
    }
    ZFillRoundTrip(n, 2);
    assert s[..1][..0] == [];
    assert DecimalValue(s) == 10 * DecimalValue(s[..1]) + DigitValue(s[1]);
  }

  /** What `int()` accepts is always within [-9, 99], and two digits always parse. */
  lemma PyIntOfTwoRange(s: string)
    requires |s| == 2
    ensures PyIntOfTwo(s).Some? ==> -9 <= PyIntOfTwo(s).value <= 99
    ensures IsDigit(s[0]) && IsDigit(s[1]) ==> PyIntOfTwo(s).Some? && PyIntOfTwo(s).value >= 0
    ensures !IsDigit(s[0]) && !IsDigit(s[1]) ==> PyIntOfTwo(s).None?
  {
  }
}

/**
  `generate_student_id` of the seeding script: the last two characters of
  the entry year, the level, the field code "102" and the sequence number
  zero-padded to four digits, concatenated in that order.
 */
module StudentIds {
  import opened Wrappers
  import opened PythonBuiltins
  import ChartViews

  /**
    Python's `s[-k:]`: the last `k` elements, or all of `s` when it is
    shorter; `s[-0:]` is `s[0:]`, the whole of `s`.
   */
  function SliceFromEnd<T>(s: seq<T>, k: nat): (r: seq<T>)
    ensures |r| == (if k == 0 || |s| < k then |s| else k)
    ensures r == s[|s| - |r|..]
  {
    if k == 0 || |s| < k then s else s[|s| - k..]
  }

  /** The field code of Computer Engineering. */
  const FieldCode: string := "102"

  function GenerateStudentId(entryYear: int, level: int, sequenceNum: int): string
  {
    var yearCode := SliceFromEnd(IntToStr(entryYear), 2);
    var levelCode := IntToStr(level);
    var sequence := ZFill(IntToStr(sequenceNum), 4);
    yearCode + levelCode + FieldCode + sequence
  }

  /**
    Reads a generated id back: two year digits, two level digits, the field
    code, then the sequence digits.
   */
  function DecodeStudentId(id: string): Option<(nat, nat, nat)>
  {
    if |id| >= 11 && AllDigits(id) && id[4..7] == FieldCode then
      Some((DecimalValue(id[..2]), DecimalValue(id[2..4]), DecimalValue(id[7..])))
    else None
  }

  /** Division by ten is determined by a quotient and a remainder below ten. */
  lemma DivModTen(n: int, q: int, r: int)
    requires 0 <= r < 10 && n == 10 * q + r
    ensures n / 10 == q && n % 10 == r
  {
  }

  /** The last two characters of `str(n)` are the tens and units digits of n. */
  lemma LastTwoDigits(n: nat)
    requires n >= 10
    ensures |NatToDecimal(n)| >= 2
    ensures SliceFromEnd(NatToDecimal(n), 2) == [DigitChar((n / 10) % 10), DigitChar(n % 10)]
  {
    var tens: nat := n / 10;
    var t := NatToDecimal(tens);
    assert NatToDecimal(n) == t + [DigitChar(n % 10)];
    if tens >= 10 {
      assert t == NatToDecimal(tens / 10) + [DigitChar(tens % 10)];
    } else {
      assert t == [DigitChar(tens)];
      DivModTen(tens, 0, tens);
    }
  }

  lemma TensAndUnits(n: nat)
    ensures (n / 10) % 10 == (n % 100) / 10 && n % 10 == (n % 100) % 10
    ensures 10 * ((n / 10) % 10) + n % 10 == n % 100
  {
    var m := n % 100;
    var q := n / 100;
    assert n == 100 * q + m;
    DivModTen(m, m / 10, m % 10);
    DivModTen(n, 10 * q + m / 10, m % 10);
    DivModTen(n / 10, q, m / 10);
  }

  lemma DigitsValue(a: nat, b: nat)
    requires a < 10 && b < 10
    ensures AllDigits([DigitChar(a), DigitChar(b)]) && DecimalValue([DigitChar(a), DigitChar(b)]) == 10 * a + b
  {
    var s := [DigitChar(a), DigitChar(b)];
    assert s[..1] == [DigitChar(a)];
    assert [DigitChar(a)][..0] == [];
    assert DecimalValue([DigitChar(a)]) == 10 * DecimalValue([]) + DigitValue(DigitChar(a));
    assert DecimalValue(s) == 10 * DecimalValue(s[..1]) + DigitValue(s[1]);
  }

  /** The digits of n modulo 100, zero padded to two, are the tens and units digits of n. */
  lemma TwoDigitCode(n: nat)
    ensures ZFill(NatToDecimal(n % 100), 2) == [DigitChar((n / 10) % 10), DigitChar(n % 10)]
  {
    var m := n % 100;
    TensAndUnits(n);
    if m >= 10 {
      assert NatToDecimal(m / 10) == [DigitChar(m / 10)];
      assert NatToDecimal(m) == NatToDecimal(m / 10) + [DigitChar(m % 10)];
    } else {
      assert NatToDecimal(m) == [DigitChar(m)];
      assert Zeros(1) == "0";
      assert DigitChar(0) == '0';
    }
  }

  /** The year part of an id for a four-digit year: its tens and units digits, worth the year modulo 100. */
  lemma YearCodeDigits(y: nat)
    requires 1000 <= y <= 9999
    ensures var code := SliceFromEnd(IntToStr(y), 2);
            && code == [DigitChar((y / 10) % 10), DigitChar(y % 10)]
            && code == ZFill(NatToDecimal(y % 100), 2)
            && AllDigits(code) && DecimalValue(code) == y % 100
  {
    LastTwoDigits(y);
    TwoDigitCode(y);
    TensAndUnits(y);
    DigitsValue((y / 10) % 10, y % 10);
  }

  /** The level part of an id for a two-digit level: two digits worth the level. */
  lemma LevelCodeDigits(level: nat)
    requires 10 <= level <= 99
    ensures |IntToStr(level)| == 2 && AllDigits(IntToStr(level)) && DecimalValue(IntToStr(level)) == level
  {
    assert Pow10(1) == 10 && Pow10(2) == 100;
    NatToDecimalLength(level, 2);
    NatToDecimalRoundTrip(level);
  }

  /** The sequence part: at least four digits, worth the sequence number, exactly four below 10000. */
  lemma SequenceDigits(n: nat)
    ensures var s := ZFill(IntToStr(n), 4);
            && AllDigits(s) && DecimalValue(s) == n
            && |s| == (if n < 10000 then 4 else |NatToDecimal(n)|)
  {
    var digits := NatToDecimal(n);
    NatToDecimalRoundTrip(n);
    ZFillRoundTrip(n, 4);
    ZFillKeepsText(digits, 4);
    assert Pow10(4) == 10000;
    if n < 10000 {
      assert |digits| <= 4 by {
        if |digits| > 4 {
          LeadingDigitBound(digits);
          Pow10Monotone(4, |digits| - 1);
        }
      }
    } else {
      assert |digits| >= 5 by {
        if |digits| < 5 {
          DecimalBound(digits);
          Pow10Monotone(|digits|, 4);
        }
      }
    }
  }

  /** The four fields of an id sit at fixed offsets when the year and level codes have two characters. */
  lemma IdFields(yearCode: string, levelCode: string, sequence: string)
    requires |yearCode| == 2 && |levelCode| == 2
    ensures var id := yearCode + levelCode + FieldCode + sequence;
            && |id| == 7 + |sequence|
            && id[..2] == yearCode && id[2..4] == levelCode && id[2..5] == levelCode + [FieldCode[0]]
            && id[4..7] == FieldCode && id[7..] == sequence
            && (AllDigits(yearCode) && AllDigits(levelCode) && AllDigits(sequence) ==> AllDigits(id))
  {
    var id := yearCode + levelCode + FieldCode + sequence;
    if AllDigits(yearCode) && AllDigits(levelCode) && AllDigits(sequence) {
      forall i | 0 <= i < |id| ensures IsDigit(id[i]) {
        if i < 2 {
          assert id[i] == yearCode[i];
        } else if i < 4 {
          assert id[i] == levelCode[i - 2];
        } else if i < 7 {
          assert id[i] == FieldCode[i - 4];
        } else {
          assert id[i] == sequence[i - 7];
        }
      }
    }
  }

  /**
    Round trip: for a four-digit entry year, a two-digit level and a
    non-negative sequence number, the id reads back as the year's last two
    digits, the level and the sequence number; the sequence is padded to at
    least four digits and never truncated, so the id has exactly 11
    characters when the sequence number is below 10000.
   */
  lemma GenerateStudentIdRoundTrip(entryYear: int, level: int, sequenceNum: int)
    requires 1000 <= entryYear <= 9999 && 10 <= level <= 99 && 0 <= sequenceNum
    ensures DecodeStudentId(GenerateStudentId(entryYear, level, sequenceNum)) == Some((entryYear % 100, level, sequenceNum))
    ensures |GenerateStudentId(entryYear, level, sequenceNum)| == 7 + (if sequenceNum < 10000 then 4 else |NatToDecimal(sequenceNum)|)
  {
    var yearCode := SliceFromEnd(IntToStr(entryYear), 2);
    var levelCode := IntToStr(level);
    var sequence := ZFill(IntToStr(sequenceNum), 4);
    YearCodeDigits(entryYear);
    LevelCodeDigits(level);
    SequenceDigits(sequenceNum);
    IdFields(yearCode, levelCode, sequence);
  }

  /**
    The year digits of a generated id are the two-digit year code the
    degree-chart views read, for every entry year in 1392..1491.
   */
  lemma GeneratedYearReadsBack(entryYear: int, level: int, sequenceNum: int)
    requires 1392 <= entryYear <= 1491 && 10 <= level <= 99 && 0 <= sequenceNum
    ensures GenerateStudentId(entryYear, level, sequenceNum)[..2] == ChartViews.YearCode(entryYear)
  {
    var yearCode := SliceFromEnd(IntToStr(entryYear), 2);
    assert yearCode == ChartViews.YearCode(entryYear) by {
      YearCodeDigits(entryYear);
    }
    assert |IntToStr(level)| == 2 by {
      LevelCodeDigits(level);
    }
    IdFields(yearCode, IntToStr(level), ZFill(IntToStr(sequenceNum), 4));
  }

  /** The views read a year code back as the year's last two digits and recover the entry year from them. */
  lemma YearCodeReadsBack(entryYear: int)
    requires 1392 <= entryYear <= 1491
    ensures PyIntOfTwo(ChartViews.YearCode(entryYear)) == Some(entryYear % 100)
    ensures ChartViews.EntryYear(entryYear % 100) == entryYear
  {
    PyIntOfTwoRoundTrip(entryYear % 100);
    if entryYear < 1400 {
      assert entryYear % 100 == entryYear - 1300;
    } else {
      assert entryYear % 100 == entryYear - 1400;
    }
  }

  /**
    The generator and the parser of the views disagree on where the major
    sits: for the levels 12, 13 and 14, digits [2:5] of a generated id are
    the level followed by '1', which is not a known major code, so the views
    reject every such id as an unknown major.
   */
  lemma GeneratedIdsHaveUnknownMajor(entryYear: int, level: int, sequenceNum: int)
    requires 1392 <= entryYear <= 1491 && 12 <= level <= 14 && 0 <= sequenceNum
    ensures ChartViews.ParseStudentNumber(Some(GenerateStudentId(entryYear, level, sequenceNum)))
            == Failure(ChartViews.UnknownMajor(NatToDecimal(level) + "1"))
  {
    var yearCode := SliceFromEnd(IntToStr(entryYear), 2);
    var levelCode := NatToDecimal(level);
    YearCodeDigits(entryYear);
    SmallLevelCode(level);
    IdFields(yearCode, levelCode, ZFill(IntToStr(sequenceNum), 4));
    assert PyIntOfTwo(yearCode).Some?;
    MajorCodesStartWithTwo(levelCode + "1");
  }

  /** Every major code the views know begins with '2'. */
  lemma MajorCodesStartWithTwo(code: string)
    requires |code| == 3 && code[0] != '2'
    ensures ChartViews.MajorOf(code).None?
  {
    assert "210"[0] == '2' && "213"[0] == '2' && "201"[0] == '2' && "211"[0] == '2' && "220"[0] == '2';
  }

  /** The levels 12..14 are written as '1' followed by their units digit. */
  lemma SmallLevelCode(level: int)
    requires 12 <= level <= 14
    ensures NatToDecimal(level) == ['1', DigitChar(level % 10)]
  {
    assert NatToDecimal(level) == NatToDecimal(level / 10) + [DigitChar(level % 10)];
    assert NatToDecimal(level / 10) == "1";
  }
}

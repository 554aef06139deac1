/**
 * `getUVoffSet`: the UV offset that moves a UDIM tile back onto the unit
 * square. A UDIM is a four-character tile number `1vvu`: its last digit is
 * the tile's column plus one and the two digits before it its row.
 */
module Udim {
  import opened Wrappers
  import opened PyStr

  /**
   * The outcomes of getUVoffSet: the offset pair; `False` (the ValueError
   * it catches when a piece is not an integer); or the IndexError it lets
   * escape when the text parses as an integer but is shorter than four
   * characters.
   */
  datatype UVOffset = Offset(u: int, v: int) | NotAnInteger | IndexError

  /**
   * getUVoffSet: the whole text must parse as an integer; then the U offset
   * is one minus its fourth character and the V offset minus its second
   * and third characters, each parsed with `int`.
   */
  function GetUVOffset(udim: string): (r: UVOffset)
    ensures r.IndexError? <==> ParseInt(udim).Some? && |udim| < 4
    ensures r.Offset? ==> ParseInt(udim).Some? && |udim| >= 4
  {
    if ParseInt(udim).None? then NotAnInteger
    else if |udim| < 4 then IndexError
    else
      match (ParseInt(udim[3..4]), ParseInt(udim[1..3]))
      case (Some(d), Some(t)) => Offset(-(d - 1), -t)
      case _ => NotAnInteger
  }

  /**
   * The U offset is one minus the fourth character, which must be a digit,
   * so it lies in -8..1; the V offset is minus whatever two characters
   * parse to, so it lies in -99..9.
   */
  lemma OffsetBounds(udim: string)
    requires GetUVOffset(udim).Offset?
    ensures IsDigit(udim[3]) && GetUVOffset(udim).u == 1 - DigitValue(udim[3])
    ensures -8 <= GetUVOffset(udim).u <= 1 && -99 <= GetUVOffset(udim).v <= 9
  {
    var last := udim[3..4];
    assert last[0] == udim[3];
    ParseOneChar(last);
    ParseTwoChars(udim[1..3]);
  }

  /** A four-digit number, digit by digit. */
  lemma FourDigits(s: string)
    requires |s| == 4 && IsNumeral(s)
    ensures IsNumeral(s[1..3]) && DigitsValue(s[1..3]) == 10 * DigitValue(s[1]) + DigitValue(s[2])
    ensures DigitsValue(s) == 1000 * DigitValue(s[0]) + 100 * DigitValue(s[1]) + 10 * DigitValue(s[2]) + DigitValue(s[3])
  {
    assert DigitsValue(s[..1]) == DigitValue(s[0]) by {
      assert s[..1][..0] == "";
    }
    assert DigitsValue(s[..2]) == 10 * DigitValue(s[0]) + DigitValue(s[1]) by {
      assert s[..2][..1] == s[..1];
    }
    assert DigitsValue(s[..3]) == 100 * DigitValue(s[0]) + 10 * DigitValue(s[1]) + DigitValue(s[2]) by {
      assert s[..3][..2] == s[..2];
    }
    assert s[..4] == s;
    var mid := s[1..3];
    assert DigitsValue(mid[..1]) == DigitValue(s[1]) by {
      assert mid[..1][..0] == "";
    }
  }

  /** For four digits `d a b c` the offset is (1 - c, -(10a + b)); the first digit plays no part. */
  lemma OffsetOfDigits(udim: string)
    requires |udim| == 4 && IsNumeral(udim)
    ensures GetUVOffset(udim) == Offset(1 - DigitValue(udim[3]), -(10 * DigitValue(udim[1]) + DigitValue(udim[2])))
  {
    ParseNumeral(udim);
    FourDigits(udim);
    var last, mid := udim[3..4], udim[1..3];
    assert last[0] == udim[3];
    ParseOneChar(last);
    ParseNumeral(mid);
    assert ParseInt(last) == Some(DigitValue(udim[3]));
    assert ParseInt(mid) == Some(10 * DigitValue(udim[1]) + DigitValue(udim[2]));
  }

  /** A tile number `1vvu` read as its row `vv` and its last digit `u`. */
  lemma TileDigits(udim: string) returns (row: int, c: int)
    requires |udim| == 4 && IsNumeral(udim) && udim[0] == '1'
    ensures GetUVOffset(udim) == Offset(1 - c, -row)
    ensures DigitsValue(udim) == 1000 + 10 * row + c && 0 <= row <= 99 && 0 <= c <= 9
    ensures c == DigitValue(udim[3]) && (c == 0 <==> udim[3] == '0')
  {
    OffsetOfDigits(udim);
    FourDigits(udim);
    row, c := 10 * DigitValue(udim[1]) + DigitValue(udim[2]), DigitValue(udim[3]);
  }

  /**
   * Where the last digit is not 0, the offsets are minus the tile's
   * coordinates: for `1vvu` with tile number `n`, column (n - 1001) % 10
   * and row (n - 1001) / 10.
   */
  lemma OffsetIsTile(udim: string, n: int)
    requires |udim| == 4 && IsNumeral(udim) && udim[0] == '1' && udim[3] != '0'
    requires n == DigitsValue(udim)
    ensures GetUVOffset(udim) == Offset(-((n - 1001) % 10), -((n - 1001) / 10))
    ensures 0 <= -GetUVOffset(udim).u <= 8
  {
    var row, c := TileDigits(udim);
    OffsetOfTile(udim, n, row, c);
  }

  lemma OffsetOfTile(udim: string, n: int, row: int, c: int)
    requires GetUVOffset(udim) == Offset(1 - c, -row)
    requires n == 1000 + 10 * row + c && 0 <= row && 1 <= c <= 9
    ensures GetUVOffset(udim) == Offset(-((n - 1001) % 10), -((n - 1001) / 10))
    ensures 0 <= -GetUVOffset(udim).u <= 8
  {
    TileArithmetic(n, row, c);
  }

  /**
   * Where the last digit is 0 (tiles 1010, 1020, ...) the U offset is 1:
   * column -1, outside the ten columns 0..9 of UDIM space.
   */
  lemma LastDigitZero(udim: string)
    requires |udim| == 4 && IsNumeral(udim) && udim[3] == '0'
    ensures GetUVOffset(udim).Offset? && GetUVOffset(udim).u == 1
  {
    OffsetOfDigits(udim);
  }

  /** Tile 1010, the tenth tile of the first row, gets the offset of column -1, row 1. */
  lemma Tile1010(udim: string)
    requires udim == "1010"
    ensures GetUVOffset(udim) == Offset(1, -1)
  {
    assert IsNumeral(udim);
    OffsetOfDigits(udim);
  }

  /**
   * The offset as the UDIM convention defines it: a last digit of 0 is the
   * tenth column (column 9) of the row below the one the middle digits
   * name.
   */
  function CorrectedUVOffset(udim: string): UVOffset {
    match GetUVOffset(udim)
    case Offset(u, v) => if u == 1 then Offset(-9, v + 1) else Offset(u, v)
    case other => other
  }

  /**
   * The corrected offset fails exactly where getUVoffSet does, and its U
   * offset always names one of the ten columns 0..9.
   */
  lemma CorrectedBounds(udim: string)
    ensures CorrectedUVOffset(udim).Offset? <==> GetUVOffset(udim).Offset?
    ensures CorrectedUVOffset(udim).Offset? ==> -9 <= CorrectedUVOffset(udim).u <= 0
  {
    if GetUVOffset(udim).Offset? {
      OffsetBounds(udim);
    }
  }

  /** The corrected offset is minus the tile's coordinates for every tile from 1001 on. */
  lemma CorrectedOffsetIsTile(udim: string, n: int)
    requires |udim| == 4 && IsNumeral(udim) && udim[0] == '1'
    requires n == DigitsValue(udim) && n >= 1001
    ensures CorrectedUVOffset(udim) == Offset(-((n - 1001) % 10), -((n - 1001) / 10))
  {
    var row, c := TileDigits(udim);
    CorrectedOfTile(udim, n, row, c);
  }

  lemma CorrectedOfTile(udim: string, n: int, row: int, c: int)
    requires GetUVOffset(udim) == Offset(1 - c, -row)
    requires n == 1000 + 10 * row + c && 0 <= c <= 9 && n >= 1001
    ensures CorrectedUVOffset(udim) == Offset(-((n - 1001) % 10), -((n - 1001) / 10))
  {
    TileArithmetic(n, row, c);
  }

  /** Tile n = 1000 + 10 row + c: column and row counted from tile 1001. */
  lemma TileArithmetic(n: int, row: int, c: int)
    requires n == 1000 + 10 * row + c && 0 <= c <= 9 && n >= 1001
    ensures c == 0 ==> (n - 1001) % 10 == 9 && (n - 1001) / 10 == row - 1
    ensures c != 0 ==> (n - 1001) % 10 == c - 1 && (n - 1001) / 10 == row
  {
    if c == 0 {
      assert n - 1001 == 10 * (row - 1) + 9;
    } else {
      assert n - 1001 == 10 * row + (c - 1);
    }
  }
}

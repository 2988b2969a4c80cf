// HTTP dates (src/semantik/error.rs, httpdate_parse): the fixed-offset IMF-fixdate parser of
// section 5.6.7 of RFC 9110, and the printer it undoes.

module HttpDate {
  import opened Basics
  import opened Calendar

  // ----- `str::parse` for integers -----

  predicate IsDigit(b: byte) {
    48 <= b <= 57
  }

  predicate AllDigits(s: Bytes) {
    forall i | 0 <= i < |s| :: IsDigit(s[i])
  }

  /** The decimal value of a non-empty string of digits. */
  function Digits(s: Bytes): (r: Option<nat>)
    ensures r.Some? <==> s != [] && AllDigits(s)
  {
    if s == [] || !IsDigit(s[|s| - 1]) then None
    else if |s| == 1 then Some(s[0] - 48)
    else
      var high := Digits(s[..|s| - 1]);
      if high.None? then
        assert !AllDigits(s[..|s| - 1]);
        None
      else
        assert forall i | 0 <= i < |s| - 1 :: s[i] == s[..|s| - 1][i];
        Some(high.value * 10 + (s[|s| - 1] - 48))
  }

  const PLUS: byte := 43
  const MINUS: byte := 45

  const U32_MAX: nat := 0xFFFF_FFFF
  const I32_MAX: nat := 0x7FFF_FFFF
  const I64_MAX: nat := 0x7FFF_FFFF_FFFF_FFFF

  /** `parse` to an unsigned type: an optional plus sign, then digits. */
  function ParseUnsigned(s: Bytes, max: nat): Option<nat> {
    var d := Digits(if s != [] && s[0] == PLUS then s[1..] else s);
    if d.Some? && d.value <= max then d else None
  }

  /** `parse` to a signed type: an optional sign, then digits. */
  function ParseSigned(s: Bytes, max: nat): Option<int> {
    if s != [] && s[0] == MINUS then
      var d := Digits(s[1..]);
      if d.Some? && d.value <= max + 1 then Option<int>.Some(0 - d.value) else None
    else ParseUnsigned(s, max)
  }

  predicate IsSpace(b: byte) {
    b == SPACE || 9 <= b <= 13
  }

  /** `str::trim` on ASCII text. */
  function Trim(s: Bytes): Bytes
    decreases |s|
  {
    if s != [] && IsSpace(s[0]) then Trim(s[1..])
    else if s != [] && IsSpace(s[|s| - 1]) then Trim(s[..|s| - 1])
    else s
  }

  /** Trimming takes all the white space off both ends and nothing else. */
  lemma {:induction false} TrimStrips(left: Bytes, m: Bytes, right: Bytes)
    requires (forall i | 0 <= i < |left| :: IsSpace(left[i])) && (forall i | 0 <= i < |right| :: IsSpace(right[i]))
    requires m != [] && !IsSpace(m[0]) && !IsSpace(m[|m| - 1])
    ensures Trim(left + m + right) == m
    decreases |left| + |right|
  {
    var s := left + m + right;
    if left != [] {
      assert s[1..] == left[1..] + m + right;
      TrimStrips(left[1..], m, right);
    } else if right != [] {
      assert s[0] == m[0] && s[|s| - 1] == right[|right| - 1];
      assert s[..|s| - 1] == left + m + right[..|right| - 1];
      TrimStrips(left, m, right[..|right| - 1]);
    } else {
      assert s == m;
    }
  }

  lemma {:induction false} TrimBlank(s: Bytes)
    requires forall i | 0 <= i < |s| :: IsSpace(s[i])
    ensures Trim(s) == []
  {
    if s != [] {
      TrimBlank(s[1..]);
    }
  }

  // ----- The parser -----

  // The month names, byte by byte.
  const JAN: Bytes := [74, 97, 110]
  const FEB: Bytes := [70, 101, 98]
  const MAR: Bytes := [77, 97, 114]
  const APR: Bytes := [65, 112, 114]
  const MAY: Bytes := [77, 97, 121]
  const JUN: Bytes := [74, 117, 110]
  const JUL: Bytes := [74, 117, 108]
  const AUG: Bytes := [65, 117, 103]
  const SEP: Bytes := [83, 101, 112]
  const OCT: Bytes := [79, 99, 116]
  const NOV: Bytes := [78, 111, 118]
  const DEC: Bytes := [68, 101, 99]

  const MONTHS := [JAN, FEB, MAR, APR, MAY, JUN, JUL, AUG, SEP, OCT, NOV, DEC]

  /** The number of a month name. */
  function MonthNumber(name: Bytes): Option<nat> {
    if name == JAN then Some(1)
    else if name == FEB then Some(2)
    else if name == MAR then Some(3)
    else if name == APR then Some(4)
    else if name == MAY then Some(5)
    else if name == JUN then Some(6)
    else if name == JUL then Some(7)
    else if name == AUG then Some(8)
    else if name == SEP then Some(9)
    else if name == OCT then Some(10)
    else if name == NOV then Some(11)
    else if name == DEC then Some(12)
    else None
  }

  const GMT := Ascii(" GMT")

  /** The fields the parser reads at their fixed offsets; it looks at nothing else but the ending. */
  function ReadFields(s: Bytes): Option<DateTime>
    requires |s| >= 29
  {
    var day := ParseUnsigned(Trim(s[5..7]), U32_MAX);
    var month := MonthNumber(s[8..11]);
    var year := ParseSigned(s[12..16], I32_MAX);
    var hour := ParseUnsigned(s[17..19], U32_MAX);
    var minute := ParseUnsigned(s[20..22], U32_MAX);
    var second := ParseUnsigned(s[23..25], U32_MAX);
    if day.None? || month.None? || year.None? || hour.None? || minute.None? || second.None? then None
    else Some(DateTime(year.value, month.value, day.value, hour.value, minute.value, second.value))
  }

  /** `httpdate_parse`, to Unix seconds. */
  function HttpdateParse(s: Bytes): Option<nat> {
    if |s| < 29 || s[|s| - 4..] != GMT then None
    else
      var t := ReadFields(s);
      if t.None? then None else ImfToUnix(t.value)
  }

  // ----- The printer -----

  function Digit(n: nat): byte
    requires n < 10
  {
    48 + n
  }

  function Two(n: nat): (s: Bytes)
    requires n < 100
    ensures |s| == 2
  {
    [Digit(n / 10), Digit(n % 10)]
  }

  function Four(n: nat): (s: Bytes)
    requires n < 10000
    ensures |s| == 4
  {
    Two(n / 100) + Two(n % 100)
  }

  function MonthName(m: nat): (s: Bytes)
    requires 1 <= m <= 12
    ensures |s| == 3
  {
    MONTHS[m - 1]
  }

  // 1970-01-01 was a Thursday.
  function Weekday(t: DateTime): (s: Bytes)
    requires InRange(t)
    ensures |s| == 3
  {
    var names := [Ascii("Thu"), Ascii("Fri"), Ascii("Sat"), Ascii("Sun"), Ascii("Mon"), Ascii("Tue"), Ascii("Wed")];
    names[DayNumber(t.year, t.month, t.day) % 7]
  }

  const COMMA: byte := 44

  /** The 29-byte format, with any three bytes for the day name. */
  function Print(dayName: Bytes, t: DateTime): (s: Bytes)
    requires InRange(t) && |dayName| == 3
    ensures |s| == 29
  {
    dayName + [COMMA, SPACE] + Two(t.day) + [SPACE] + MonthName(t.month) + [SPACE] + Four(t.year) + [SPACE]
    + Two(t.hour) + [COLON] + Two(t.minute) + [COLON] + Two(t.second) + GMT
  }

  /** The IMF-fixdate of a valid date. */
  function PrintImf(t: DateTime): Bytes
    requires Valid(t)
  {
    Print(Weekday(t), t)
  }

  // ----- Printing, then parsing -----

  lemma DigitsOfTwo(n: nat)
    requires n < 100
    ensures Digits(Two(n)) == Some(n)
    ensures Trim(Two(n)) == Two(n) && ParseUnsigned(Two(n), U32_MAX) == Some(n)
  {
    var s := Two(n);
    assert s[..1] == [Digit(n / 10)];
    assert AllDigits(s) && AllDigits([Digit(n / 10)]);
    assert Digits([Digit(n / 10)]) == Some(n / 10);
  }

  lemma DigitsOfFour(n: nat)
    requires n < 10000
    ensures Digits(Four(n)) == Some(n)
    ensures ParseSigned(Four(n), I32_MAX) == Some(n)
  {
    var high, low := Two(n / 100), Two(n % 100);
    var s := high + low;
    DigitsOfTwo(n / 100);
    assert AllDigits(s);
    DigitsSnoc(high, low[0]);
    assert high + [low[0]] == s[..3];
    DigitsSnoc(s[..3], low[1]);
    assert s[..3] + [low[1]] == s;
    assert (n / 100 * 10 + n % 100 / 10) * 10 + n % 100 % 10 == n;
    hide Digits;
  }

  lemma {:induction false} DigitsSnoc(s: Bytes, d: byte)
    requires s != [] && AllDigits(s) && IsDigit(d)
    ensures Digits(s + [d]) == Some(Digits(s).value * 10 + (d - 48))
  {
    assert (s + [d])[..|s|] == s;
  }

  lemma MonthNames(m: nat)
    requires 1 <= m <= 12
    ensures MonthNumber(MonthName(m)) == Some(m)
  {
  }

  lemma {:induction false} PrintSlices(dayName: Bytes, t: DateTime)
    requires InRange(t) && |dayName| == 3
    ensures var s := Print(dayName, t);
            && s[5..7] == Two(t.day) && s[8..11] == MonthName(t.month) && s[12..16] == Four(t.year)
            && s[17..19] == Two(t.hour) && s[20..22] == Two(t.minute) && s[23..25] == Two(t.second)
            && s[25..] == GMT
  {
    hide Two, Four, MonthName;
  }

  lemma {:induction false} PrintedFields(dayName: Bytes, t: DateTime)
    requires InRange(t) && |dayName| == 3
    ensures ReadFields(Print(dayName, t)) == Some(t)
  {
    PrintSlices(dayName, t);
    DigitsOfTwo(t.day);
    DigitsOfFour(t.year);
    DigitsOfTwo(t.hour);
    DigitsOfTwo(t.minute);
    DigitsOfTwo(t.second);
    MonthNames(t.month);
    hide Print, Two, Four, MonthName, MonthNumber, ParseUnsigned, ParseSigned, Trim;
  }

  /** Printing a date and parsing it back gives its Unix seconds, whatever the day name. */
  lemma {:induction false} ParseOfPrint(dayName: Bytes, t: DateTime)
    requires InRange(t) && |dayName| == 3
    ensures HttpdateParse(Print(dayName, t)) == ImfToUnix(t) && ImfToUnix(t).Some?
  {
    PrintSlices(dayName, t);
    PrintedFields(dayName, t);
    hide Print, ReadFields, ImfToUnix, DayNumber;
    ImfToUnixCountsDays(t);
  }

  // ----- Parsing, then printing -----

  /** The exact format: 29 bytes, digits and separators in place, a day that the month has, and the
      right day name. */
  predicate ImfFixdate(s: Bytes) {
    && |s| == 29
    && s[3] == COMMA && s[4] == SPACE
    && AllDigits(s[5..7]) && s[7] == SPACE
    && s[11] == SPACE
    && AllDigits(s[12..16]) && s[16] == SPACE
    && AllDigits(s[17..19]) && s[19] == COLON
    && AllDigits(s[20..22]) && s[22] == COLON
    && AllDigits(s[23..25]) && s[25..] == GMT
    && var t := ReadFields(s);
    && t.Some? && Valid(t.value)
    && s[..3] == Weekday(t.value)
  }

  lemma {:induction false} TwoOfDigits(s: Bytes)
    requires |s| == 2 && AllDigits(s)
    ensures Digits(s).Some? && Digits(s).value < 100 && Two(Digits(s).value) == s
    ensures Trim(s) == s && ParseUnsigned(s, U32_MAX) == Digits(s)
  {
    assert s == [s[0]] + [s[1]];
    assert Digits([s[0]]) == Some(s[0] - 48);
    DigitsSnoc([s[0]], s[1]);
  }

  lemma {:induction false} FourOfDigits(s: Bytes)
    requires |s| == 4 && AllDigits(s)
    ensures Digits(s).Some? && Digits(s).value < 10000 && Four(Digits(s).value) == s
    ensures ParseSigned(s, I32_MAX) == Digits(s)
  {
    var high, low := s[..2], s[2..];
    TwoOfDigits(high);
    TwoOfDigits(low);
    var h, l := Digits(high).value, Digits(low).value;
    DigitsOfFour(h * 100 + l);
    assert (h * 100 + l) / 100 == h && (h * 100 + l) % 100 == l;
    assert high + low == s;
    hide Digits, Two, AllDigits, ParseSigned;
  }

  lemma {:induction false} NameOfMonthNumber(name: Bytes)
    ensures var m := MonthNumber(name); m.Some? ==> 1 <= m.value <= 12 && MonthName(m.value) == name
  {
  }

  // An exact date is the printed form of the fields read from it.
  lemma {:induction false} PrintOfFields(s: Bytes)
    requires ImfFixdate(s)
    ensures PrintImf(ReadFields(s).value) == s
  {
    var t := ReadFields(s).value;
    TwoOfDigits(s[5..7]);
    NameOfMonthNumber(s[8..11]);
    FourOfDigits(s[12..16]);
    TwoOfDigits(s[17..19]);
    TwoOfDigits(s[20..22]);
    TwoOfDigits(s[23..25]);
    hide Two, Four, Digits, AllDigits, MonthName, MonthNumber, ParseUnsigned, ParseSigned, Trim, Weekday;
    assert s[5..7] == Two(t.day) && s[8..11] == MonthName(t.month) && s[12..16] == Four(t.year);
    assert s[17..19] == Two(t.hour) && s[20..22] == Two(t.minute) && s[23..25] == Two(t.second);
    Glue(s);
  }

  lemma {:induction false} Glue(s: Bytes)
    requires |s| == 29
    ensures s == s[..3] + [s[3], s[4]] + s[5..7] + [s[7]] + s[8..11] + [s[11]] + s[12..16] + [s[16]]
                 + s[17..19] + [s[19]] + s[20..22] + [s[22]] + s[23..25] + s[25..]
  {
  }

  lemma {:induction false} PrintSeparators(dayName: Bytes, t: DateTime)
    requires InRange(t) && |dayName| == 3
    ensures var s := Print(dayName, t);
            && s[..3] == dayName && s[3] == COMMA && s[4] == SPACE && s[7] == SPACE && s[11] == SPACE
            && s[16] == SPACE && s[19] == COLON && s[22] == COLON
  {
    hide Two, Four, MonthName, Ascii;
    var s := Print(dayName, t);
    assert s[0] == dayName[0] && s[1] == dayName[1] && s[2] == dayName[2];
  }

  /** A printed date is exact precisely when it is valid and has its right day name; the parser
      accepts it either way. */
  lemma {:induction false} AcceptedAndExact(dayName: Bytes, t: DateTime)
    requires InRange(t) && |dayName| == 3
    ensures HttpdateParse(Print(dayName, t)).Some?
    ensures ImfFixdate(Print(dayName, t)) <==> Valid(t) && dayName == Weekday(t)
  {
    ParseOfPrint(dayName, t);
    PrintSlices(dayName, t);
    PrintSeparators(dayName, t);
    PrintedFields(dayName, t);
    DigitsOfTwo(t.day);
    DigitsOfFour(t.year);
    DigitsOfTwo(t.hour);
    DigitsOfTwo(t.minute);
    DigitsOfTwo(t.second);
    hide Print, Two, Four, MonthName, ReadFields, HttpdateParse, Digits, AllDigits, Weekday;
  }

  /** Parsing an accepted input and printing the result gives the input back exactly when the input
      was an exact IMF-fixdate. */
  lemma {:induction false} PrintOfParseIff(s: Bytes)
    requires HttpdateParse(s).Some?
    ensures Valid(FromUnix(HttpdateParse(s).value))
    ensures PrintImf(FromUnix(HttpdateParse(s).value)) == s <==> ImfFixdate(s)
  {
    var t := ReadFields(s).value;
    var unix := HttpdateParse(s).value;
    assert InRange(t) && ImfToUnix(t) == Some(unix);
    hide ReadFields, ImfToUnix, FromUnix, Print, Weekday, HttpdateParse;
    FromUnixOfToUnixIff(t);
    ToUnixOfFromUnix(unix);
    var u := FromUnix(unix);
    AcceptedAndExact(Weekday(u), u);
    if ImfFixdate(s) {
      PrintOfFields(s);
    }
  }

  // ----- Which inputs are accepted -----

  /** Two bytes read as a number: two digits, or a plus sign and a digit. */
  function Num2(s: Bytes): Option<nat>
    requires |s| == 2
  {
    if IsDigit(s[0]) && IsDigit(s[1]) then Some((s[0] - 48) * 10 + (s[1] - 48))
    else if s[0] == PLUS && IsDigit(s[1]) then Some(s[1] - 48)
    else None
  }

  /** The day: like Num2, or one digit with white space on either side. */
  function Day2(s: Bytes): Option<nat>
    requires |s| == 2
  {
    if IsSpace(s[0]) && IsDigit(s[1]) then Some(s[1] - 48)
    else if IsDigit(s[0]) && IsSpace(s[1]) then Some(s[0] - 48)
    else Num2(s)
  }

  function DigitValue(b: byte): nat
    requires IsDigit(b)
  {
    b - 48
  }

  function Num4(s: Bytes): nat
    requires |s| == 4 && AllDigits(s)
  {
    DigitValue(s[0]) * 1000 + DigitValue(s[1]) * 100 + DigitValue(s[2]) * 10 + DigitValue(s[3])
  }

  /** The inputs the parser accepts: seven fields at fixed offsets and the last four bytes, in range. The
      day name, the separators and anything between the seconds and the ending are free. */
  predicate Accepted(s: Bytes) {
    && |s| >= 29 && s[|s| - 4..] == GMT
    && Day2(s[5..7]).Some? && 1 <= Day2(s[5..7]).value <= 31
    && MonthNumber(s[8..11]).Some?
    && AllDigits(s[12..16]) && 1970 <= Num4(s[12..16])
    && Num2(s[17..19]).Some? && Num2(s[17..19]).value < 24
    && Num2(s[20..22]).Some? && Num2(s[20..22]).value < 60
    && Num2(s[23..25]).Some? && Num2(s[23..25]).value < 60
  }

  function AcceptedDate(s: Bytes): (t: DateTime)
    requires Accepted(s)
    ensures InRange(t)
  {
    DateTime(Num4(s[12..16]), MonthNumber(s[8..11]).value, Day2(s[5..7]).value,
             Num2(s[17..19]).value, Num2(s[20..22]).value, Num2(s[23..25]).value)
  }

  lemma DigitsOfOne(b: byte)
    ensures Digits([b]) == if IsDigit(b) then Some(b - 48) else None
  {
  }

  lemma {:induction false} ParseTwo(s: Bytes)
    requires |s| == 2
    ensures ParseUnsigned(s, U32_MAX) == Num2(s)
  {
    DigitsOfOne(s[0]);
    DigitsOfOne(s[1]);
    assert s[..1] == [s[0]] && s[1..] == [s[1]];
    assert s == [s[0]] + [s[1]];
    if IsDigit(s[0]) && IsDigit(s[1]) {
      DigitsSnoc([s[0]], s[1]);
    }
  }

  lemma TrimOne(b: byte)
    ensures Trim([b]) == if IsSpace(b) then [] else [b]
  {
    assert [b][1..] == [];
  }

  lemma {:induction false} ParseDay(s: Bytes)
    requires |s| == 2
    ensures ParseUnsigned(Trim(s), U32_MAX) == Day2(s)
  {
    DigitsOfOne(s[0]);
    DigitsOfOne(s[1]);
    TrimOne(s[0]);
    TrimOne(s[1]);
    assert s[..1] == [s[0]] && s[1..] == [s[1]];
    ParseTwo(s);
    assert Digits([]) == None;
    assert [s[0]][1..] == [] && [s[1]][1..] == [];
    hide Digits;
  }

  lemma {:induction false} ParseYear(s: Bytes)
    requires |s| == 4
    ensures var y := ParseSigned(s, I32_MAX);
            if AllDigits(s) then y == Some(Num4(s)) else y.None? || y.value < 1000
  {
    if AllDigits(s) {
      YearDigits(s);
    } else if s[0] == PLUS {
      ThreeDigits(s[1..]);
    }
  }

  lemma {:induction false} ThreeDigits(s: Bytes)
    requires |s| == 3
    ensures Digits(s).Some? ==>
              Digits(s).value == DigitValue(s[0]) * 100 + DigitValue(s[1]) * 10 + DigitValue(s[2]) < 1000
  {
    if AllDigits(s) {
      DigitsOfOne(s[0]);
      DigitsSnoc([s[0]], s[1]);
      DigitsSnoc([s[0]] + [s[1]], s[2]);
      assert s == ([s[0]] + [s[1]]) + [s[2]];
    }
  }

  lemma {:induction false} YearDigits(s: Bytes)
    requires |s| == 4 && AllDigits(s)
    ensures ParseSigned(s, I32_MAX) == Some(Num4(s))
  {
    ThreeDigits(s[..3]);
    DigitsSnoc(s[..3], s[3]);
    assert s == s[..3] + [s[3]];
    hide Digits;
  }

  /** The parser accepts exactly this grammar, and gives the Unix time of the fields it names. */
  lemma {:induction false} AcceptedIff(s: Bytes)
    ensures HttpdateParse(s).Some? <==> Accepted(s)
    ensures Accepted(s) ==> InRange(AcceptedDate(s)) && HttpdateParse(s) == ImfToUnix(AcceptedDate(s))
  {
    if |s| >= 29 {
      ParseDay(s[5..7]);
      NameOfMonthNumber(s[8..11]);
      ParseYear(s[12..16]);
      ParseTwo(s[17..19]);
      ParseTwo(s[20..22]);
      ParseTwo(s[23..25]);
      hide Digits, Trim, ParseUnsigned, ParseSigned, Num2, Day2, MonthNumber, MonthName, AllDigits, Num4, ImfToUnix;
      var t := ReadFields(s);
      if t.Some? {
        ImfToUnixCountsDays(t.value);
      }
      if AllDigits(s[12..16]) {
        YearBound(s[12..16]);
      }
    }
  }

  lemma {:induction false} YearBound(s: Bytes)
    requires |s| == 4 && AllDigits(s)
    ensures Num4(s) <= 9999
  {
  }

  /** Two inputs of any accepted lengths with the same bytes in the fields parse alike, whatever the
      other bytes are. */
  lemma {:induction false} OnlyFieldsMatter(s: Bytes, t: Bytes)
    requires |s| >= 29 && |t| >= 29 && s[|s| - 4..] == GMT && t[|t| - 4..] == GMT
    requires s[5..7] == t[5..7] && s[8..11] == t[8..11] && s[12..16] == t[12..16]
    requires s[17..19] == t[17..19] && s[20..22] == t[20..22] && s[23..25] == t[23..25]
    ensures HttpdateParse(s) == HttpdateParse(t)
  {
    hide ParseUnsigned, ParseSigned, Trim, MonthNumber, ImfToUnix;
  }

  /** The documentation promises None for every input that is not exactly an IMF-fixdate, and the exact
      ones are accepted. So the promise is kept on `s` exactly when `s` is an IMF-fixdate or outside the
      grammar above. */
  lemma {:induction false} PromiseKeptIff(s: Bytes)
    ensures ImfFixdate(s) ==> Accepted(s)
    ensures (HttpdateParse(s).Some? <==> ImfFixdate(s)) <==> ImfFixdate(s) || !Accepted(s)
  {
    AcceptedIff(s);
    if ImfFixdate(s) {
      PrintOfFields(s);
      var t := ReadFields(s).value;
      AcceptedAndExact(Weekday(t), t);
    }
    hide *;
  }

  // "????? 5?Jan?1970?+1?+2?+3 and more GMT": longer than 29 bytes, no separators, a padded day, signs
  // instead of leading zeros.
  const LAX: Bytes := [
    63, 63, 63, 63, 63, 32, 53, 63, 74, 97, 110, 63, 49,
    57, 55, 48, 63, 43, 49, 63, 43, 50, 63, 43, 51, 32,
    97, 110, 100, 32, 109, 111, 114, 101, 32, 71, 77, 84]

  lemma LaxEnding()
    ensures |LAX| == 38 && LAX[34..] == GMT
  {
    assert LAX[34..] == [32, 71, 77, 84];
  }

  lemma LaxDate()
    ensures LAX[5..7] == [SPACE, 53] && LAX[8..11] == JAN && LAX[12..16] == [49, 57, 55, 48]
  {
    assert LAX[5] == 32 && LAX[6] == 53 && LAX[8] == 74 && LAX[9] == 97 && LAX[10] == 110;
    assert LAX[12] == 49 && LAX[13] == 57 && LAX[14] == 55 && LAX[15] == 48;
  }

  lemma LaxTime()
    ensures LAX[17..19] == [PLUS, 49] && LAX[20..22] == [PLUS, 50] && LAX[23..25] == [PLUS, 51]
  {
    assert LAX[17] == 43 && LAX[18] == 49 && LAX[20] == 43 && LAX[21] == 50 && LAX[23] == 43 && LAX[24] == 51;
  }

  /** An accepted input that is no IMF-fixdate: it reads as 1970-01-05T01:02:03Z. */
  lemma LaxInputAccepted()
    ensures HttpdateParse(LAX) == Some(4 * 86400 + 3723) && !ImfFixdate(LAX)
  {
    LaxEnding();
    LaxDate();
    LaxTime();
    hide Ascii, HttpdateParse, ImfToUnix;
    assert Accepted(LAX) && AcceptedDate(LAX) == DateTime(1970, 1, 5, 1, 2, 3);
    AcceptedIff(LAX);
    ImfToUnixCountsDays(AcceptedDate(LAX));
  }

  /** An input on which out-of-range is not rejected: in a common year 31 February parses as 3 March. */
  lemma {:induction false} February31Accepted(dayName: Bytes, year: int, hour: nat, minute: nat, second: nat)
    requires |dayName| == 3 && 1970 <= year <= 9999 && !Leap(year) && hour < 24 && minute < 60 && second < 60
    ensures var feb, mar := DateTime(year, 2, 31, hour, minute, second), DateTime(year, 3, 3, hour, minute, second);
            && InRange(feb) && !Valid(feb) && Valid(mar)
            && HttpdateParse(Print(dayName, feb)).Some?
            && HttpdateParse(Print(dayName, feb)) == HttpdateParse(Print(dayName, mar))
  {
    hide *;
    February31IsMarch3(year, hour, minute, second);
    ParseOfPrint(dayName, DateTime(year, 2, 31, hour, minute, second));
    ParseOfPrint(dayName, DateTime(year, 3, 3, hour, minute, second));
  }

  // ----- The bytes on the wire -----

  lemma AsciiThree(s: string)
    requires |s| == 3 && forall i | 0 <= i < 3 :: s[i] < 128 as char
    ensures Ascii(s) == [s[0] as int, s[1] as int, s[2] as int]
  {
  }

  lemma FirstMonths()
    ensures MonthNumber(Ascii("Jan")) == Some(1) && MonthNumber(Ascii("Feb")) == Some(2)
    ensures MonthNumber(Ascii("Mar")) == Some(3) && MonthNumber(Ascii("Apr")) == Some(4)
  {
    hide Ascii;
    AsciiThree("Jan");
    AsciiThree("Feb");
    AsciiThree("Mar");
    AsciiThree("Apr");
  }

  lemma MiddleMonths()
    ensures MonthNumber(Ascii("May")) == Some(5) && MonthNumber(Ascii("Jun")) == Some(6)
    ensures MonthNumber(Ascii("Jul")) == Some(7) && MonthNumber(Ascii("Aug")) == Some(8)
  {
    hide Ascii;
    AsciiThree("May");
    AsciiThree("Jun");
    AsciiThree("Jul");
    AsciiThree("Aug");
  }

  lemma LastMonths()
    ensures MonthNumber(Ascii("Sep")) == Some(9) && MonthNumber(Ascii("Oct")) == Some(10)
    ensures MonthNumber(Ascii("Nov")) == Some(11) && MonthNumber(Ascii("Dec")) == Some(12)
  {
    hide Ascii;
    AsciiThree("Sep");
    AsciiThree("Oct");
    AsciiThree("Nov");
    AsciiThree("Dec");
  }

  /** White space is the ASCII white space of `char::is_whitespace`: tab to carriage return, and space. */
  lemma WhiteSpaceBytes(b: byte)
    ensures IsSpace(b) <==> b in [9, 10, 11, 12, 13, 32]
    ensures IsDigit(b) <==> b in Ascii("0123456789")
  {
    var s := Ascii("0123456789");
    assert s[0] == 48 && s[1] == 49 && s[2] == 50 && s[3] == 51 && s[4] == 52;
    assert s[5] == 53 && s[6] == 54 && s[7] == 55 && s[8] == 56 && s[9] == 57;
    if IsDigit(b) {
      assert s[b - 48] == b;
    }
  }

  lemma RfcDay()
    ensures DayNumber(1994, 11, 6) == 9075 && 9075 % 7 == 3
  {
    DaysFromCivilCounts(1994, 11, 6);
    hide DayNumber;
  }

  lemma RfcPieces()
    ensures Two(6) == [48, 54] && Four(1994) == [49, 57, 57, 52]
    ensures Two(8) == [48, 56] && Two(49) == [52, 57] && Two(37) == [51, 55] && MonthName(11) == [78, 111, 118]
  {
  }

  lemma {:induction false} RfcBytes()
    ensures Ascii("Sun, 06 Nov 1994 08:49:37 GMT") ==
            [83, 117, 110, 44, 32, 48, 54, 32, 78, 111, 118, 32, 49, 57, 57, 52, 32, 48, 56, 58, 52, 57, 58, 51, 55,
             32, 71, 77, 84]
  {
  }

  lemma {:induction false} RfcNames()
    ensures Ascii("Sun") == [83, 117, 110] && GMT == [32, 71, 77, 84]
  {
  }

  lemma {:induction false} RfcPrint()
    ensures InRange(DateTime(1994, 11, 6, 8, 49, 37))
    ensures Print([83, 117, 110], DateTime(1994, 11, 6, 8, 49, 37)) == Ascii("Sun, 06 Nov 1994 08:49:37 GMT")
  {
    hide Two, Four, MonthName, Ascii;
    RfcPieces();
    RfcBytes();
    RfcNames();
  }

  lemma {:induction false} RfcWeekday()
    ensures InRange(DateTime(1994, 11, 6, 8, 49, 37))
    ensures Weekday(DateTime(1994, 11, 6, 8, 49, 37)) == [83, 117, 110]
  {
    hide DayNumber, Ascii;
    RfcDay();
    RfcNames();
  }

  lemma {:induction false} RfcSeconds()
    ensures ImfToUnix(DateTime(1994, 11, 6, 8, 49, 37)) == Some(784111777)
  {
    RfcDay();
    hide DayNumber, ImfToUnix;
    ImfToUnixCountsDays(DateTime(1994, 11, 6, 8, 49, 37));
  }

  /** The example of section 5.6.7 of RFC 9110, printed and parsed. */
  lemma {:induction false} RfcExample()
    ensures Valid(DateTime(1994, 11, 6, 8, 49, 37))
    ensures PrintImf(DateTime(1994, 11, 6, 8, 49, 37)) == Ascii("Sun, 06 Nov 1994 08:49:37 GMT")
    ensures HttpdateParse(Ascii("Sun, 06 Nov 1994 08:49:37 GMT")) == Some(784111777)
  {
    hide DayNumber, Two, Four, MonthName, Ascii, HttpdateParse, ImfToUnix, Print, Weekday;
    RfcWeekday();
    RfcPrint();
    RfcSeconds();
    ParseOfPrint([83, 117, 110], DateTime(1994, 11, 6, 8, 49, 37));
  }
}

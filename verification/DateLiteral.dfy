/** The text GetBuiltSQL writes for a time, and its reading and ordering. */
module DateLiteral {
  import opened Options
  import opened Bytes
  import opened Sequences

  // Wall-clock fields of a moment, in local time, after 500ns have been added to it.
  datatype Clock = Clock(year: int, month: nat, day: nat, hour: nat, minute: nat, second: nat, nano: nat) {
    predicate InCalendar() {
      && 1 <= month <= 12 && 1 <= day <= 31
      && hour < 24 && minute < 60 && second < 60 && nano < 1_000_000_000
    }
  }

  type WallClock = c: Clock | c.InCalendar() witness Clock(1, 1, 1, 0, 0, 0, 0)

  // What a date literal states: the fields down to the microsecond.
  datatype Fields = Fields(year: int, month: nat, day: nat, hour: nat, minute: nat, second: nat, micro: nat)

  function FieldsOf(c: WallClock): Fields {
    Fields(c.year, c.month, c.day, c.hour, c.minute, c.second, c.nano / 1000)
  }

  // The two digit tables, a hundred characters each, given ten characters at a time.
  const UNITS := "0123456789"
  const DIGITS01 := Flatten([UNITS, UNITS, UNITS, UNITS, UNITS, UNITS, UNITS, UNITS, UNITS, UNITS])
  const TENS := ["0000000000", "1111111111", "2222222222", "3333333333", "4444444444",
                 "5555555555", "6666666666", "7777777777", "8888888888", "9999999999"]
  const DIGITS10 := Flatten(TENS)

  function Flatten(rows: seq<string>): string {
    if rows == [] then "" else Flatten(rows[..|rows| - 1]) + rows[|rows| - 1]
  }

  lemma {:induction false} FlattenAt(rows: seq<string>, n: nat)
    requires forall i | 0 <= i < |rows| :: |rows[i]| == 10
    ensures |Flatten(rows)| == 10 * |rows|
    ensures n < 10 * |rows| ==> Flatten(rows)[n] == rows[n / 10][n % 10]
  {
    if rows != [] {
      FlattenAt(rows[..|rows| - 1], n);
    }
  }

  /** Number `n` in two digits. */
  function Pair(n: nat): seq<byte>
    requires n < 100
  {
    [ZERO + (n / 10) as byte, ZERO + (n % 10) as byte]
  }

  lemma UnitsAt(n: nat)
    requires n < 10
    ensures |UNITS| == 10 && UNITS[n] == (48 + n) as char
  {
  }

  lemma TensAt(t: nat, n: nat)
    requires t < 10 && n < 10
    ensures |TENS| == 10 && |TENS[t]| == 10 && TENS[t][n] == (48 + t) as char
  {
  }

  /** Below a hundred, the tables hold the tens digit and the units digit of the index. */
  lemma TableLookup(n: nat)
    requires n < 100
    ensures |DIGITS10| == |DIGITS01| == 100
    ensures DIGITS10[n] < 128 as char && DIGITS01[n] < 128 as char
    ensures [DIGITS10[n] as byte, DIGITS01[n] as byte] == Pair(n)
  {
    forall t | 0 <= t < 10 ensures |TENS[t]| == 10 {
      TensAt(t, 0);
    }
    TensAt(n / 10, n % 10);
    UnitsAt(n % 10);
    FlattenAt(TENS, n);
    FlattenAt([UNITS, UNITS, UNITS, UNITS, UNITS, UNITS, UNITS, UNITS, UNITS, UNITS], n);
  }

  /** Two digits by table, as the builder takes them. */
  function TwoDigits(n: nat): (r: seq<byte>)
    requires n < 100
    ensures r == Pair(n)
  {
    TableLookup(n);
    [DIGITS10[n] as byte, DIGITS01[n] as byte]
  }

  // ---- the reach of the tables ----

  /** Go's integer division, which truncates towards zero, and its remainder. */
  function Quotient(a: int, b: int): int
    requires b > 0
  {
    if a < 0 then -(-a / b) else a / b
  }

  function Remainder(a: int, b: int): int
    requires b > 0
  {
    a - b * Quotient(a, b)
  }

  const TABLE_SIZE := 100

  /** An index both tables have an entry for; any other one makes the lookup panic. */
  predicate InTables(i: int) {
    0 <= i < TABLE_SIZE
  }

  lemma TableSizes()
    ensures |DIGITS10| == |DIGITS01| == TABLE_SIZE
  {
    TableLookup(0);
  }

  /** The indices looked up for a time, in the order of the text. */
  function Indices(c: WallClock): seq<int> {
    var micro := c.nano / 1000;
    [Quotient(c.year, 100), Remainder(c.year, 100), c.month, c.day, c.hour, c.minute, c.second] +
    if micro == 0 then [] else [micro / 10000, micro / 100 % 100, micro % 100]
  }

  /** The two parts of a year are in the tables exactly for the years 0 to 9999: a negative
      year leaves a negative quotient or, above -100, a negative remainder. */
  lemma YearInTables(year: int)
    ensures var year100, year1 := Quotient(year, 100), Remainder(year, 100);
      && (0 <= year100 < |DIGITS10| && 0 <= year1 < |DIGITS10| <==> 0 <= year <= 9999)
      && (0 <= year100 < |DIGITS01| && 0 <= year1 < |DIGITS01| <==> 0 <= year <= 9999)
  {
    TableSizes();
  }

  /** Whether a time can be printed: both parts of its year are in the tables. */
  predicate Printable(c: WallClock): (r: bool)
    ensures r <==> 0 <= c.year <= 9999
  {
    InTables(Quotient(c.year, 100)) && InTables(Remainder(c.year, 100))
  }

  /** No other lookup can fail. */
  lemma AllInTables(c: WallClock)
    ensures Printable(c) <==> forall i | 0 <= i < |Indices(c)| :: InTables(Indices(c)[i])
  {
    var year100, year1 := Quotient(c.year, 100), Remainder(c.year, 100);
    assert Indices(c)[0] == year100 && Indices(c)[1] == year1;
  }

  // A separator and a two-digit number after it.
  datatype Mark = Mark(separator: seq<byte>, n: nat)

  predicate TwoDigit(marks: seq<Mark>) {
    forall i | 0 <= i < |marks| :: marks[i].n < 100
  }

  predicate Separates(s: seq<byte>) {
    s == [] || s == [MINUS] || s == [SPACE] || s == [COLON] || s == [DOT]
  }

  function Print(marks: seq<Mark>): seq<byte>
    requires TwoDigit(marks)
  {
    if marks == [] then [] else marks[0].separator + Pair(marks[0].n) + Print(marks[1..])
  }

  function MicroMarks(micro: nat): (r: seq<Mark>)
    requires micro < 1_000_000
    ensures TwoDigit(r) && forall i | 0 <= i < |r| :: Separates(r[i].separator)
  {
    if micro == 0 then []
    else [Mark([DOT], micro / 10000)] + ([Mark([], micro / 100 % 100)] + [Mark([], micro % 100)])
  }

  function SecondMarks(c: WallClock): (r: seq<Mark>)
    requires 0 <= c.year <= 9999
    ensures TwoDigit(r) && forall i | 0 <= i < |r| :: Separates(r[i].separator)
  {
    [Mark([], c.year / 100)] + ([Mark([], c.year % 100)] + ([Mark([MINUS], c.month)] + ([Mark([MINUS], c.day)] +
    ([Mark([SPACE], c.hour)] + ([Mark([COLON], c.minute)] + [Mark([COLON], c.second)])))))
  }

  /** A date literal without its quotes. */
  function DateBody(c: WallClock): seq<byte>
    requires 0 <= c.year <= 9999
  {
    Print(SecondMarks(c) + MicroMarks(c.nano / 1000))
  }

  function DateText(c: WallClock): seq<byte>
    requires 0 <= c.year <= 9999
  {
    [QUOTE] + DateBody(c) + [QUOTE]
  }

  lemma {:induction false} PrintConcat(a: seq<Mark>, b: seq<Mark>)
    requires TwoDigit(a) && TwoDigit(b)
    ensures Print(a + b) == Print(a) + Print(b)
  {
    if a == [] {
      assert a + b == b;
    } else {
      PrintConcat(a[1..], b);
      assert (a + b)[1..] == a[1..] + b;
    }
  }

  lemma PrintFirst(m: Mark, marks: seq<Mark>)
    requires m.n < 100 && TwoDigit(marks)
    ensures Print([m] + marks) == m.separator + TwoDigits(m.n) + Print(marks)
    ensures Print([m]) == m.separator + TwoDigits(m.n)
  {
    assert ([m] + marks)[1..] == marks && [m][1..] == [];
  }

  lemma PrintTime(c: WallClock)
    ensures Print([Mark([SPACE], c.hour)] + ([Mark([COLON], c.minute)] + [Mark([COLON], c.second)])) ==
      [SPACE] + TwoDigits(c.hour) + ([COLON] + TwoDigits(c.minute) + ([COLON] + TwoDigits(c.second)))
  {
    var m6 := [Mark([COLON], c.second)];
    var m5 := [Mark([COLON], c.minute)] + m6;
    PrintFirst(Mark([COLON], c.second), []);
    PrintFirst(Mark([COLON], c.minute), m6);
    PrintFirst(Mark([SPACE], c.hour), m5);
  }

  lemma PrintDay(month: nat, day: nat, rest: seq<Mark>)
    requires month < 100 && day < 100 && TwoDigit(rest)
    ensures Print([Mark([MINUS], month)] + ([Mark([MINUS], day)] + rest)) ==
      [MINUS] + TwoDigits(month) + ([MINUS] + TwoDigits(day) + Print(rest))
  {
    PrintFirst(Mark([MINUS], day), rest);
    PrintFirst(Mark([MINUS], month), [Mark([MINUS], day)] + rest);
  }

  lemma PrintYear(century: nat, year: nat, rest: seq<Mark>)
    requires century < 100 && year < 100 && TwoDigit(rest)
    ensures Print([Mark([], century)] + ([Mark([], year)] + rest)) ==
      TwoDigits(century) + (TwoDigits(year) + Print(rest))
  {
    PrintFirst(Mark([], year), rest);
    PrintFirst(Mark([], century), [Mark([], year)] + rest);
  }

  /** The text up to the seconds, as one append writes it. */
  lemma PrintSeconds(c: WallClock)
    requires 0 <= c.year <= 9999
    ensures Print(SecondMarks(c)) ==
      TwoDigits(c.year / 100) + (TwoDigits(c.year % 100) +
      ([MINUS] + TwoDigits(c.month) + ([MINUS] + TwoDigits(c.day) +
      ([SPACE] + TwoDigits(c.hour) + ([COLON] + TwoDigits(c.minute) + ([COLON] + TwoDigits(c.second)))))))
  {
    var time := [Mark([SPACE], c.hour)] + ([Mark([COLON], c.minute)] + [Mark([COLON], c.second)]);
    PrintTime(c);
    PrintDay(c.month, c.day, time);
    PrintYear(c.year / 100, c.year % 100, [Mark([MINUS], c.month)] + ([Mark([MINUS], c.day)] + time));
  }

  /** The fraction, as one append writes it. */
  lemma PrintMicro(micro: nat)
    requires 0 < micro < 1_000_000
    ensures Print(MicroMarks(micro))
      == [DOT] + TwoDigits(micro / 10000) + (TwoDigits(micro / 100 % 100) + TwoDigits(micro % 100))
  {
    var m2 := [Mark([], micro % 100)];
    var m1 := [Mark([], micro / 100 % 100)] + m2;
    PrintFirst(Mark([], micro % 100), []);
    PrintFirst(Mark([], micro / 100 % 100), m2);
    PrintFirst(Mark([DOT], micro / 10000), m1);
  }

  // ---- reading a date literal ----

  /** Two digits and the text after them. */
  function ReadPair(t: seq<byte>): Option<(nat, seq<byte>)> {
    if |t| < 2 || !IsDigit(t[0]) || !IsDigit(t[1]) then None
    else Some(((t[0] - ZERO) as nat * 10 + (t[1] - ZERO) as nat, t[2..]))
  }

  /** Two digits after each of the separators, and the text after that. */
  function ReadMarks(separators: seq<seq<byte>>, t: seq<byte>): (r: Option<(seq<nat>, seq<byte>)>)
    ensures r.Some? ==> |r.value.0| == |separators|
  {
    if separators == [] then Some(([], t))
    else if !(separators[0] <= t) then None
    else
      var (n, rest) :- ReadPair(t[|separators[0]|..]);
      var (ns, end) :- ReadMarks(separators[1..], rest);
      Some(([n] + ns, end))
  }

  const SECOND_SEPARATORS: seq<seq<byte>> := [[], [], [MINUS], [MINUS], [SPACE], [COLON], [COLON]]
  const MICRO_SEPARATORS: seq<seq<byte>> := [[DOT], [], []]

  /** The microseconds, from the end of the seconds to the end of the literal. */
  function ReadMicro(t: seq<byte>): Option<nat> {
    if t == [QUOTE] then Some(0)
    else
      var (ns, end) :- ReadMarks(MICRO_SEPARATORS, t);
      if end == [QUOTE] then Some(10000 * ns[0] + 100 * ns[1] + ns[2]) else None
  }

  function ReadDate(t: seq<byte>): Option<Fields> {
    if t == [] || t[0] != QUOTE then None
    else
      var (ns, rest) :- ReadMarks(SECOND_SEPARATORS, t[1..]);
      var micro :- ReadMicro(rest);
      Some(Fields(100 * ns[0] + ns[1], ns[2], ns[3], ns[4], ns[5], ns[6], micro))
  }

  function Separators(marks: seq<Mark>): seq<seq<byte>> {
    seq(|marks|, i requires 0 <= i < |marks| => marks[i].separator)
  }

  function Numbers(marks: seq<Mark>): seq<nat> {
    seq(|marks|, i requires 0 <= i < |marks| => marks[i].n)
  }

  lemma ReadPairOf(n: nat, rest: seq<byte>)
    requires n < 100
    ensures ReadPair(Pair(n) + rest) == Some((n, rest))
  {
    assert (Pair(n) + rest)[2..] == rest;
  }

  lemma ReadMark(m: Mark, separators: seq<seq<byte>>, rest: seq<byte>)
    requires m.n < 100
    ensures ReadMarks([m.separator] + separators, m.separator + Pair(m.n) + rest)
      == (var (ns, end) :- ReadMarks(separators, rest); Some(([m.n] + ns, end)))
  {
    var t, s := m.separator + Pair(m.n) + rest, [m.separator] + separators;
    assert t[|m.separator|..] == Pair(m.n) + rest && s[1..] == separators;
    ReadPairOf(m.n, rest);
  }

  lemma TextFirst(marks: seq<Mark>, rest: seq<byte>)
    requires marks != [] && TwoDigit(marks)
    ensures Print(marks) + rest == marks[0].separator + Pair(marks[0].n) + (Print(marks[1..]) + rest)
  {
    Associate(marks[0].separator + Pair(marks[0].n), Print(marks[1..]), rest);
  }

  lemma SeparatorsFirst(marks: seq<Mark>)
    requires marks != []
    ensures Separators(marks) == [marks[0].separator] + Separators(marks[1..])
  {
  }

  lemma NumbersFirst(marks: seq<Mark>)
    requires marks != []
    ensures Numbers(marks) == [marks[0].n] + Numbers(marks[1..])
  {
  }

  lemma {:induction false} ReadMarksOf(marks: seq<Mark>, rest: seq<byte>)
    requires TwoDigit(marks)
    ensures ReadMarks(Separators(marks), Print(marks) + rest) == Some((Numbers(marks), rest))
  {
    if marks == [] {
      assert Print(marks) + rest == rest && Separators(marks) == [] && Numbers(marks) == [];
    } else {
      TextFirst(marks, rest);
      SeparatorsFirst(marks);
      NumbersFirst(marks);
      ReadMark(marks[0], Separators(marks[1..]), Print(marks[1..]) + rest);
      ReadMarksOf(marks[1..], rest);
    }
  }

  lemma MicroParts(micro: nat)
    requires micro < 1_000_000
    ensures 10000 * (micro / 10000) + 100 * (micro / 100 % 100) + micro % 100 == micro
  {
    assert micro / 10000 == micro / 100 / 100;
  }

  lemma ReadMicroOf(micro: nat)
    requires micro < 1_000_000
    ensures ReadMicro(Print(MicroMarks(micro)) + [QUOTE]) == Some(micro)
  {
    if micro != 0 {
      var marks := MicroMarks(micro);
      ReadMarksOf(marks, [QUOTE]);
      assert Separators(marks) == MICRO_SEPARATORS;
      assert Numbers(marks) == [micro / 10000, micro / 100 % 100, micro % 100];
      MicroParts(micro);
      PrintMicro(micro);
    }
  }

  lemma SevenMarks(c: WallClock)
    requires 0 <= c.year <= 9999
    ensures SecondMarks(c) == [Mark([], c.year / 100), Mark([], c.year % 100), Mark([MINUS], c.month),
      Mark([MINUS], c.day), Mark([SPACE], c.hour), Mark([COLON], c.minute), Mark([COLON], c.second)]
  {
  }

  lemma SecondsAsMarks(c: WallClock)
    requires 0 <= c.year <= 9999
    ensures Separators(SecondMarks(c)) == SECOND_SEPARATORS
    ensures Numbers(SecondMarks(c)) == [c.year / 100, c.year % 100, c.month, c.day, c.hour, c.minute, c.second]
  {
    SevenMarks(c);
  }

  lemma ReadSecondsOf(c: WallClock, rest: seq<byte>)
    requires 0 <= c.year <= 9999
    ensures ReadMarks(SECOND_SEPARATORS, Print(SecondMarks(c)) + rest)
      == Some(([c.year / 100, c.year % 100, c.month, c.day, c.hour, c.minute, c.second], rest))
  {
    ReadMarksOf(SecondMarks(c), rest);
    SecondsAsMarks(c);
  }

  /** The literal reads back as the fields it was printed from, to the microsecond. */
  lemma DateRoundTrip(c: WallClock)
    requires 0 <= c.year <= 9999
    ensures ReadDate(DateText(c)) == Some(FieldsOf(c))
  {
    var rest := Print(MicroMarks(c.nano / 1000)) + [QUOTE];
    assert DateText(c)[1..] == Print(SecondMarks(c)) + rest by {
      PrintConcat(SecondMarks(c), MicroMarks(c.nano / 1000));
    }
    ReadSecondsOf(c, rest);
    ReadMicroOf(c.nano / 1000);
  }

  /** It carries a fraction exactly when the microseconds are not zero. */
  lemma DateLength(c: WallClock)
    requires 0 <= c.year <= 9999
    ensures |DateText(c)| == if FieldsOf(c).micro == 0 then 21 else 28
  {
    PrintConcat(SecondMarks(c), MicroMarks(c.nano / 1000));
    PrintSeconds(c);
    if c.nano / 1000 != 0 {
      PrintMicro(c.nano / 1000);
    }
  }

  lemma PairsOf()
    ensures Pair(20) == Ascii("20") && Pair(24) == Ascii("24") && Pair(2) == Ascii("02") && Pair(29) == Ascii("29")
    ensures Pair(9) == Ascii("09") && Pair(5) == Ascii("05") && Pair(7) == Ascii("07")
  {
  }

  /** For instance, nine hours, five minutes and seven seconds into the 29th of February 2024. */
  lemma DateExample()
    ensures DateText(Clock(2024, 2, 29, 9, 5, 7, 0)) == Ascii("'2024-02-29 09:05:07'")
  {
    var c: WallClock := Clock(2024, 2, 29, 9, 5, 7, 0);
    PrintConcat(SecondMarks(c), MicroMarks(0));
    PrintSeconds(c);
    PairsOf();
    DateExampleBytes();
  }

  lemma DateExampleBytes()
    ensures [QUOTE] + (Ascii("20") + (Ascii("24") + ([MINUS] + Ascii("02") + ([MINUS] + Ascii("29") +
      ([SPACE] + Ascii("09") + ([COLON] + Ascii("05") + ([COLON] + Ascii("07")))))))) + [QUOTE]
      == Ascii("'2024-02-29 09:05:07'")
  {
  }

  // ---- order ----

  /** Byte-wise string order. */
  predicate TextLess(a: seq<byte>, b: seq<byte>) {
    b != [] && (a == [] || a[0] < b[0] || (a[0] == b[0] && TextLess(a[1..], b[1..])))
  }

  /** The order in time of two moments. */
  predicate Earlier(a: Fields, b: Fields) {
    a.year < b.year || (a.year == b.year && (
    a.month < b.month || (a.month == b.month && (
    a.day < b.day || (a.day == b.day && (
    a.hour < b.hour || (a.hour == b.hour && (
    a.minute < b.minute || (a.minute == b.minute && (
    a.second < b.second || (a.second == b.second && a.micro < b.micro)))))))))))
  }

  /** The order of two lists of numbers, a shorter list coming before its extensions. */
  predicate NumbersLess(a: seq<Mark>, b: seq<Mark>) {
    b != [] && (a == [] || a[0].n < b[0].n || (a[0].n == b[0].n && NumbersLess(a[1..], b[1..])))
  }

  /** The same separators as far as both go, and a point where only one goes on. */
  ghost predicate Aligned(a: seq<Mark>, b: seq<Mark>) {
    && (forall i | 0 <= i < |a| && i < |b| :: a[i].separator == b[i].separator)
    && (|a| < |b| ==> b[|a|].separator == [DOT])
    && (|b| < |a| ==> a[|b|].separator == [DOT])
  }

  lemma TextLessCons(c: byte, x: seq<byte>, d: byte, y: seq<byte>)
    ensures TextLess([c] + x, [d] + y) <==> c < d || (c == d && TextLess(x, y))
  {
    assert ([c] + x)[1..] == x && ([d] + y)[1..] == y;
  }

  lemma {:induction false} TextLessPrefix(p: seq<byte>, x: seq<byte>, y: seq<byte>)
    ensures TextLess(p + x, p + y) <==> TextLess(x, y)
  {
    if p == [] {
      assert p + x == x && p + y == y;
    } else {
      TextLessPrefix(p[1..], x, y);
      TextLessCons(p[0], p[1..] + x, p[0], p[1..] + y);
      assert p + x == [p[0]] + (p[1..] + x) && p + y == [p[0]] + (p[1..] + y);
    }
  }

  lemma PairOrder(m: nat, x: seq<byte>, n: nat, y: seq<byte>)
    requires m < 100 && n < 100
    ensures TextLess(Pair(m) + x, Pair(n) + y) <==> m < n || (m == n && TextLess(x, y))
  {
    var p, q := Pair(m), Pair(n);
    assert p + x == [p[0]] + ([p[1]] + x) && q + y == [q[0]] + ([q[1]] + y);
    TextLessCons(p[0], [p[1]] + x, q[0], [q[1]] + y);
    TextLessCons(p[1], x, q[1], y);
  }

  lemma {:induction false} PrintOrder(a: seq<Mark>, b: seq<Mark>)
    requires TwoDigit(a) && TwoDigit(b) && Aligned(a, b)
    ensures TextLess(Print(a) + [QUOTE], Print(b) + [QUOTE]) <==> NumbersLess(a, b)
  {
    if a != [] && b != [] {
      var p, x, y := a[0].separator, Print(a[1..]) + [QUOTE], Print(b[1..]) + [QUOTE];
      PrintOrder(a[1..], b[1..]);
      PairOrder(a[0].n, x, b[0].n, y);
      TextLessPrefix(p, Pair(a[0].n) + x, Pair(b[0].n) + y);
      TextFirst(a, [QUOTE]);
      TextFirst(b, [QUOTE]);
      Associate(p, Pair(a[0].n), x);
      Associate(p, Pair(b[0].n), y);
    } else {
      PrintEmptyOrder(a, b);
    }
  }

  lemma PrintEmptyOrder(a: seq<Mark>, b: seq<Mark>)
    requires TwoDigit(a) && TwoDigit(b) && Aligned(a, b) && (a == [] || b == [])
    ensures TextLess(Print(a) + [QUOTE], Print(b) + [QUOTE]) <==> b != []
  {
    var s, t := Print(a) + [QUOTE], Print(b) + [QUOTE];
    assert s[0] == (if a == [] then QUOTE else DOT) && t[0] == (if b == [] then QUOTE else DOT);
    if a == [] && b == [] {
      assert s[1..] == [] && t[1..] == [];
    }
  }

  lemma NumbersLessFirst(m: Mark, a: seq<Mark>, n: Mark, b: seq<Mark>)
    ensures NumbersLess([m] + a, [n] + b) <==> m.n < n.n || (m.n == n.n && NumbersLess(a, b))
  {
    assert ([m] + a)[1..] == a && ([n] + b)[1..] == b;
  }

  lemma MicroOrder(m: nat, n: nat)
    requires m < 1_000_000 && n < 1_000_000
    ensures NumbersLess(MicroMarks(m), MicroMarks(n)) <==> m < n
  {
    if m != 0 && n != 0 {
      MicroParts(m);
      MicroParts(n);
      var m2, m1, m0 := Mark([DOT], m / 10000), Mark([], m / 100 % 100), Mark([], m % 100);
      var n2, n1, n0 := Mark([DOT], n / 10000), Mark([], n / 100 % 100), Mark([], n % 100);
      NumbersLessFirst(m2, [m1] + [m0], n2, [n1] + [n0]);
      NumbersLessFirst(m1, [m0], n1, [n0]);
      assert NumbersLess([m0], [n0]) <==> m0.n < n0.n;
    }
  }

  lemma SecondOrder(c: WallClock, x: seq<Mark>, d: WallClock, y: seq<Mark>)
    requires 0 <= c.year <= 9999 && 0 <= d.year <= 9999
    ensures NumbersLess(SecondMarks(c) + x, SecondMarks(d) + y) <==>
      Earlier(FieldsOf(c).(micro := 0), FieldsOf(d).(micro := 0))
      || (FieldsOf(c).(micro := 0) == FieldsOf(d).(micro := 0) && NumbersLess(x, y))
  {
    var a6, b6 := [Mark([COLON], c.second)] + x, [Mark([COLON], d.second)] + y;
    var a5, b5 := [Mark([COLON], c.minute)] + a6, [Mark([COLON], d.minute)] + b6;
    var a4, b4 := [Mark([SPACE], c.hour)] + a5, [Mark([SPACE], d.hour)] + b5;
    var a3, b3 := [Mark([MINUS], c.day)] + a4, [Mark([MINUS], d.day)] + b4;
    var a2, b2 := [Mark([MINUS], c.month)] + a3, [Mark([MINUS], d.month)] + b3;
    var a1, b1 := [Mark([], c.year % 100)] + a2, [Mark([], d.year % 100)] + b2;
    NumbersLessFirst(Mark([], c.year / 100), a1, Mark([], d.year / 100), b1);
    NumbersLessFirst(Mark([], c.year % 100), a2, Mark([], d.year % 100), b2);
    NumbersLessFirst(Mark([MINUS], c.month), a3, Mark([MINUS], d.month), b3);
    NumbersLessFirst(Mark([MINUS], c.day), a4, Mark([MINUS], d.day), b4);
    NumbersLessFirst(Mark([SPACE], c.hour), a5, Mark([SPACE], d.hour), b5);
    NumbersLessFirst(Mark([COLON], c.minute), a6, Mark([COLON], d.minute), b6);
    NumbersLessFirst(Mark([COLON], c.second), x, Mark([COLON], d.second), y);
    assert SecondMarks(c) + x == [Mark([], c.year / 100)] + a1;
    assert SecondMarks(d) + y == [Mark([], d.year / 100)] + b1;
  }

  lemma SameSeparators(c: WallClock, x: seq<Mark>, d: WallClock, y: seq<Mark>)
    requires 0 <= c.year <= 9999 && 0 <= d.year <= 9999 && Aligned(x, y)
    ensures Aligned(SecondMarks(c) + x, SecondMarks(d) + y)
  {
    SecondsAsMarks(c);
    SecondsAsMarks(d);
    forall i | 0 <= i < 7 ensures SecondMarks(c)[i].separator == SecondMarks(d)[i].separator {
      assert Separators(SecondMarks(c))[i] == Separators(SecondMarks(d))[i];
    }
  }

  lemma QuotedOrder(a: seq<Mark>, b: seq<Mark>)
    requires TwoDigit(a) && TwoDigit(b) && Aligned(a, b)
    ensures TextLess([QUOTE] + Print(a) + [QUOTE], [QUOTE] + Print(b) + [QUOTE]) <==> NumbersLess(a, b)
  {
    var x, y := Print(a) + [QUOTE], Print(b) + [QUOTE];
    assert [QUOTE] + Print(a) + [QUOTE] == [QUOTE] + x && [QUOTE] + Print(b) + [QUOTE] == [QUOTE] + y;
    TextLessCons(QUOTE, x, QUOTE, y);
    PrintOrder(a, b);
  }

  /** Comparing two date literals as strings compares the moments they state. */
  lemma DateOrder(c: WallClock, d: WallClock)
    requires 0 <= c.year <= 9999 && 0 <= d.year <= 9999
    ensures TextLess(DateText(c), DateText(d)) <==> Earlier(FieldsOf(c), FieldsOf(d))
  {
    var x, y := MicroMarks(c.nano / 1000), MicroMarks(d.nano / 1000);
    SameSeparators(c, x, d, y);
    QuotedOrder(SecondMarks(c) + x, SecondMarks(d) + y);
    SecondOrder(c, x, d, y);
    MicroOrder(c.nano / 1000, d.nano / 1000);
  }

  // ---- moments ----

  // Whole seconds since the epoch, and the nanoseconds of the second.
  datatype Instant = Instant(second: int, nano: nat)

  type Moment = m: Instant | m.nano < 1_000_000_000 witness Instant(0, 0)

  function Nanos(m: Moment): int {
    m.second * 1_000_000_000 + m.nano
  }

  /** 500ns later, carrying into the seconds. */
  function Moved(m: Moment): Moment {
    if m.nano + 500 < 1_000_000_000 then Instant(m.second, m.nano + 500)
    else Instant(m.second + 1, m.nano + 500 - 1_000_000_000)
  }

  /** The fields the builder takes from a moment. The calendar, a given, maps each second
      to its fields in local time. */
  function ClockOf(calendar: int -> WallClock, m: Moment): WallClock {
    var moved := Moved(m);
    calendar(moved.second).(nano := moved.nano)
  }

  /** Fields to the second. */
  function ToTheSecond(c: WallClock): Fields {
    FieldsOf(c).(micro := 0)
  }

  /** The calendar gives the later of two seconds the later fields. It does in any zone, but for
      two seconds between which, or shortly before which, the zone's clocks were put back. */
  predicate Forward(calendar: int -> WallClock, s: int, t: int) {
    && (s < t ==> Earlier(ToTheSecond(calendar(s)), ToTheSecond(calendar(t))))
    && (t < s ==> Earlier(ToTheSecond(calendar(t)), ToTheSecond(calendar(s))))
  }

  /** The microseconds since the epoch that the literal of a moment states. */
  function MicrosStated(calendar: int -> WallClock, m: Moment): int {
    Moved(m).second * 1_000_000 + FieldsOf(ClockOf(calendar, m)).micro
  }

  /** Adding 500ns before dropping the last three digits rounds to the nearest microsecond,
      halves upwards. */
  lemma MicrosecondRounding(calendar: int -> WallClock, m: Moment)
    ensures MicrosStated(calendar, m) == (Nanos(m) + 500) / 1000
    ensures -500 <= Nanos(m) - 1000 * MicrosStated(calendar, m) < 500
    ensures ToTheSecond(ClockOf(calendar, m)) == ToTheSecond(calendar(Moved(m).second))
  {
    assert Nanos(Moved(m)) == Nanos(m) + 500;
  }

  lemma StatedOrder(calendar: int -> WallClock, m: Moment, n: Moment)
    requires Forward(calendar, Moved(m).second, Moved(n).second)
    ensures Earlier(FieldsOf(ClockOf(calendar, m)), FieldsOf(ClockOf(calendar, n)))
      <==> MicrosStated(calendar, m) < MicrosStated(calendar, n)
  {
    MicrosecondRounding(calendar, m);
    MicrosecondRounding(calendar, n);
  }

  /** Two moments' literals compare as strings as the moments do, to the microsecond: never
      the wrong way round, and the right way round from a microsecond apart. */
  lemma MomentOrder(calendar: int -> WallClock, m: Moment, n: Moment)
    requires Forward(calendar, Moved(m).second, Moved(n).second)
    requires Printable(ClockOf(calendar, m)) && Printable(ClockOf(calendar, n))
    ensures Nanos(m) <= Nanos(n) ==> !TextLess(DateText(ClockOf(calendar, n)), DateText(ClockOf(calendar, m)))
    ensures Nanos(m) + 1000 <= Nanos(n) ==> TextLess(DateText(ClockOf(calendar, m)), DateText(ClockOf(calendar, n)))
  {
    MicrosecondRounding(calendar, m);
    MicrosecondRounding(calendar, n);
    StatedOrder(calendar, m, n);
    StatedOrder(calendar, n, m);
    DateOrder(ClockOf(calendar, m), ClockOf(calendar, n));
    DateOrder(ClockOf(calendar, n), ClockOf(calendar, m));
  }
}

/** The statement builder: a template's `?` placeholders are replaced by its arguments,
    printed as SQL literals into a buffer that grows by hand. */
module Interpolate {
  import opened Options
  import opened Bytes
  import opened Sequences
  import opened StringLiteral
  import opened Decimal
  import opened DateLiteral

  // An argument, by the dynamic type the builder distinguishes.
  datatype Arg =
    | Nil
    | Int(n: int)              // int8, int16, int32, int, int64
    | Float(text: seq<byte>)   // with the text strconv.AppendFloat prints for it
    | Bool(b: bool)
    | ZeroTime
    | Time(clock: WallClock)   // the fields ClockOf gives for the moment
    | NilBytes
    | Binary(v: seq<byte>)
    | Str(v: seq<byte>)
    | Other

  datatype Error = Unmatched | UnsupportedType | TooLarge | IndexOutOfRange

  datatype Result = Ok(sql: seq<byte>) | Err(error: Error)

  // ---- what the builder writes ----

  /** Why an argument cannot be printed, if it cannot: its type is not handled, or one of
      its fields falls outside the two digit tables. */
  function Refusal(a: Arg): Option<Error> {
    match a
    case Other => Some(UnsupportedType)
    case Time(c) => if Printable(c) then None else Some(IndexOutOfRange)
    case _ => None
  }

  function NullText(): seq<byte> { Ascii("NULL") }
  function ZeroTimeText(): seq<byte> { Ascii("0000-00-00") }
  function BinaryPrefix(): seq<byte> { Ascii("_binary") }

  /** An argument's text within the statement. */
  function Render(style: Style, a: Arg): seq<byte>
    requires Refusal(a).None?
  {
    match a
    case Nil => NullText()
    case Int(n) => IntText(n)
    case Float(text) => text
    case Bool(b) => [if b then ONE else ZERO]
    case ZeroTime => [QUOTE] + ZeroTimeText() + [QUOTE]
    case Time(c) => DateText(c)
    case NilBytes => NullText()
    case Binary(v) => BinaryPrefix() + ([QUOTE] + Escape(style, v) + [QUOTE])
    case Str(v) => [QUOTE] + Escape(style, v) + [QUOTE]
  }

  predicate AllPrintable(args: seq<Arg>) {
    forall k | 0 <= k < |args| :: Refusal(args[k]).None?
  }

  /** The template with each `?`, wherever it stands, replaced by the text of its argument. */
  function Splice(style: Style, query: seq<byte>, args: seq<Arg>): seq<byte>
    requires Count(query, QUESTION) == |args| && AllPrintable(args)
  {
    if query == [] then []
    else
      var before, c := query[..|query| - 1], query[|query| - 1];
      if c == QUESTION then Splice(style, before, args[..|args| - 1]) + Render(style, args[|args| - 1])
      else Splice(style, before, args) + [c]
  }

  function AddText(r: Result, text: seq<byte>): Result {
    match r
    case Err(_) => r
    case Ok(sql) => Ok(sql + text)
  }

  /** One argument added to the text so far. Only a nil argument escapes the packet limit. */
  function AddArg(style: Style, maxAllowedPacket: int, r: Result, a: Arg): Result {
    if r.Err? then r
    else if Refusal(a).Some? then Err(Refusal(a).value)
    else
      var sql := r.sql + Render(style, a);
      if a != Nil && |sql| + 4 > maxAllowedPacket then Err(TooLarge) else Ok(sql)
  }

  /** What the builder makes of a template with as many placeholders as arguments. */
  function Outcome(style: Style, maxAllowedPacket: int, query: seq<byte>, args: seq<Arg>): Result
    requires Count(query, QUESTION) == |args|
  {
    if query == [] then Ok([])
    else
      var before, c := query[..|query| - 1], query[|query| - 1];
      if c == QUESTION then
        AddArg(style, maxAllowedPacket, Outcome(style, maxAllowedPacket, before, args[..|args| - 1]), args[|args| - 1])
      else AddText(Outcome(style, maxAllowedPacket, before, args), [c])
  }

  lemma {:induction false} OutcomeOfText(style: Style, max: int, query: seq<byte>, text: seq<byte>, args: seq<Arg>)
    requires Count(query, QUESTION) == |args| && QUESTION !in text
    ensures Count(query + text, QUESTION) == |args|
    ensures Outcome(style, max, query + text, args) == AddText(Outcome(style, max, query, args), text)
  {
    CountConcat(query, text, QUESTION);
    CountAbsent(text, QUESTION);
    if text == [] {
      assert query + text == query;
      assert forall s: seq<byte> :: s + text == s;
    } else {
      var text', c := text[..|text| - 1], text[|text| - 1];
      OutcomeOfText(style, max, query, text', args);
      assert (query + text)[..|query + text| - 1] == query + text';
      assert forall s: seq<byte> :: s + text' + [c] == s + text;
    }
  }

  lemma OutcomeOfPlaceholder(style: Style, max: int, query: seq<byte>, args: seq<Arg>, a: Arg)
    requires Count(query, QUESTION) == |args|
    ensures Count(query + [QUESTION], QUESTION) == |args + [a]|
    ensures Outcome(style, max, query + [QUESTION], args + [a])
      == AddArg(style, max, Outcome(style, max, query, args), a)
  {
    var q := query + [QUESTION];
    assert q[..|q| - 1] == query;
    assert (args + [a])[..|args + [a]| - 1] == args;
  }

  /** The first failure is final. */
  lemma {:induction false} FailureStays(style: Style, max: int, query: seq<byte>, args: seq<Arg>, rest: seq<byte>,
    more: seq<Arg>)
    requires Count(query, QUESTION) == |args| && Count(rest, QUESTION) == |more|
    requires Outcome(style, max, query, args).Err?
    ensures Count(query + rest, QUESTION) == |args + more|
    ensures Outcome(style, max, query + rest, args + more) == Outcome(style, max, query, args)
  {
    CountConcat(query, rest, QUESTION);
    if rest == [] {
      assert query + rest == query && args + more == args;
    } else {
      var rest', c := rest[..|rest| - 1], rest[|rest| - 1];
      assert (query + rest)[..|query + rest| - 1] == query + rest';
      if c == QUESTION {
        FailureStays(style, max, query, args, rest', more[..|more| - 1]);
        assert (args + more)[..|args + more| - 1] == args + more[..|more| - 1];
      } else {
        FailureStays(style, max, query, args, rest', more);
      }
    }
  }

  // ---- the buffer ----

  /** A byte slice that starts at the beginning of its backing array. */
  datatype Slice = Slice(data: array<byte>, len: nat) {
    ghost predicate Valid() {
      len <= data.Length
    }

    ghost function Contents(): seq<byte>
      requires Valid()
      reads data
    {
      data[..len]
    }
  }

  /** The append built-in. */
  method Append(buf: Slice, s: seq<byte>) returns (r: Slice)
    requires buf.Valid()
    modifies buf.data
    ensures r.Valid() && (r.data == buf.data || fresh(r.data))
    ensures r.Contents() == old(buf.Contents()) + s
  {
    var data := buf.data;
    if data.Length < buf.len + |s| {
      var spare :| spare >= 0;  // how much the runtime over-allocates is not specified
      data := new byte[buf.len + |s| + spare];
      forall i | 0 <= i < buf.len {
        data[i] := buf.data[i];
      }
    }
    forall i | 0 <= i < |s| {
      data[buf.len + i] := s[i];
    }
    r := Slice(data, buf.len + |s|);
  }

  method PutByte(data: array<byte>, pos: nat, c: byte)
    requires pos < data.Length
    modifies data
    ensures data[..pos + 1] == old(data[..pos]) + [c]
  {
    data[pos] := c;
  }

  method PutPair(data: array<byte>, pos: nat, c: byte, d: byte)
    requires pos + 1 < data.Length
    modifies data
    ensures data[..pos + 2] == old(data[..pos]) + [c, d]
  {
    data[pos] := c;
    data[pos + 1] := d;
  }

  /** The branch that both quote loops run for each byte. */
  method PutDoubled(data: array<byte>, pos: nat, c: byte) returns (next: nat)
    requires pos + 1 < data.Length
    modifies data
    ensures pos < next <= pos + 2
    ensures data[..next] == old(data[..pos]) + EscapeByte(DoubledQuotes, c)
  {
    if c == QUOTE {
      PutPair(data, pos, QUOTE, QUOTE);
      next := pos + 2;
    } else {
      PutByte(data, pos, c);
      next := pos + 1;
    }
  }

  /** The switch that both backslash loops run for each byte. */
  method PutBackslash(data: array<byte>, pos: nat, c: byte) returns (next: nat)
    requires pos + 1 < data.Length
    modifies data
    ensures pos < next <= pos + 2
    ensures data[..next] == old(data[..pos]) + EscapeByte(AllSpecials, c)
  {
    if c == NUL {
      PutPair(data, pos, BACKSLASH, ZERO);
      next := pos + 2;
    } else if c == NEWLINE {
      PutPair(data, pos, BACKSLASH, 110);
      next := pos + 2;
    } else if c == RETURN {
      PutPair(data, pos, BACKSLASH, 114);
      next := pos + 2;
    } else if c == CTRL_Z {
      PutPair(data, pos, BACKSLASH, 90);
      next := pos + 2;
    } else if c == QUOTE {
      PutPair(data, pos, BACKSLASH, QUOTE);
      next := pos + 2;
    } else if c == DOUBLE_QUOTE {
      PutPair(data, pos, BACKSLASH, DOUBLE_QUOTE);
      next := pos + 2;
    } else if c == BACKSLASH {
      PutPair(data, pos, BACKSLASH, BACKSLASH);
      next := pos + 2;
    } else {
      PutByte(data, pos, c);
      next := pos + 1;
    }
  }

  /** strings.IndexByte of the text from `from` on. */
  method IndexByte(s: seq<byte>, from: nat, c: byte) returns (q: int)
    requires from <= |s|
    ensures q == -1 || 0 <= q < |s| - from
    ensures q == -1 ==> c !in s[from..]
    ensures q >= 0 ==> s[from + q] == c && c !in s[from..from + q]
  {
    for i := from to |s|
      invariant c !in s[from..i]
    {
      if s[i] == c {
        return i - from;
      }
    }
    return -1;
  }

  lemma Regroup5(a: seq<byte>, b: seq<byte>, c: seq<byte>, d: seq<byte>, e: seq<byte>)
    ensures a + b + c + d + e == a + (b + (c + d) + e)
    ensures d == [] ==> a + b + c + e == a + (b + (c + d) + e)
  {
  }

  lemma EscapeAfter(before: seq<byte>, style: Style, v: seq<byte>, i: nat)
    requires i < |v|
    ensures before + Escape(style, v[..i + 1]) == before + Escape(style, v[..i]) + EscapeByte(style, v[i])
  {
    EscapeStep(style, v, i);
    Associate(before, Escape(style, v[..i]), EscapeByte(style, v[i]));
  }

  lemma RegroupQuoted(a: seq<byte>, prefix: seq<byte>, v: seq<byte>)
    ensures a + (prefix + [QUOTE]) + v + [QUOTE] == a + (prefix + ([QUOTE] + v + [QUOTE]))
  {
  }

  lemma StringReads(style: Style, before: seq<byte>, v: seq<byte>)
    ensures var text := before + ([QUOTE] + Escape(style, v) + [QUOTE]);
      && text == before + [QUOTE] + Escape(style, v) + [QUOTE]
      && before + [QUOTE] <= text
      && ReadLiteral(style.For(), text[|before| + 1..]) == Some(Literal(v, []))
  {
    QuotedReads(style, before, [], v);
    var literal := [QUOTE] + Escape(style, v) + [QUOTE];
    assert [] + literal == literal && [] + [QUOTE] == [QUOTE];
    Associate(before + [QUOTE], Escape(style, v), [QUOTE]);
  }

  /** What follows the opening quote reads as the value, and ends with it. */
  lemma QuotedReads(style: Style, before: seq<byte>, prefix: seq<byte>, v: seq<byte>)
    ensures var text := before + (prefix + ([QUOTE] + Escape(style, v) + [QUOTE]));
      && text == before + (prefix + [QUOTE]) + (Escape(style, v) + [QUOTE])
      && ReadLiteral(style.For(), text[|before| + |prefix| + 1..]) == Some(Literal(v, []))
  {
    var text := before + (prefix + ([QUOTE] + Escape(style, v) + [QUOTE]));
    assert text == before + (prefix + [QUOTE]) + (Escape(style, v) + [QUOTE]);
    assert text[|before| + |prefix| + 1..] == Escape(style, v) + [QUOTE];
    LiteralRoundTrip(style, v, []);
    assert Escape(style, v) + [QUOTE] + [] == Escape(style, v) + [QUOTE];
  }

  class MySQLInterpolate {
    const maxAllowedPacket: int
    const escapeUsingQuotes: bool

    constructor (escapeUsingQuotes: bool, maxAllowedPacket: int)
      ensures this.escapeUsingQuotes == escapeUsingQuotes && this.maxAllowedPacket == maxAllowedPacket
    {
      this.escapeUsingQuotes := escapeUsingQuotes;
      this.maxAllowedPacket := maxAllowedPacket;
    }

    /** How literals are written for the servers the builder is configured for. */
    function SqlStyle(): (style: Style)
      ensures style.For() == if escapeUsingQuotes then Quotes else Backslash
    {
      if escapeUsingQuotes then DoubledQuotes else AllSpecials
    }

    /** Makes the slice `appendSize` longer, keeping its bytes; a new array is taken only
        when the old one is too short, and is then more than twice as long. */
    method ReserveBuffer(buf: Slice, appendSize: nat) returns (r: Slice)
      requires buf.Valid()
      ensures r.Valid() && r.len == buf.len + appendSize
      ensures if r.len <= buf.data.Length then r.data == buf.data
              else fresh(r.data) && r.data.Length == buf.len * 2 + appendSize
      ensures r.data[..buf.len] == buf.Contents()
    {
      var newSize := buf.len + appendSize;
      var data := buf.data;
      if data.Length < newSize {
        data := new byte[buf.len * 2 + appendSize];
        forall i | 0 <= i < buf.len {
          data[i] := buf.data[i];
        }
      }
      r := Slice(data, newSize);
    }

    method EscapeBytesQuotes(buf: Slice, v: seq<byte>) returns (r: Slice)
      requires buf.Valid()
      modifies buf.data
      ensures r.Valid() && (r.data == buf.data || fresh(r.data))
      ensures r.Contents() == old(buf.Contents()) + Escape(DoubledQuotes, v)
    {
      var pos := buf.len;
      ghost var before := buf.Contents();
      r := ReserveBuffer(buf, |v| * 2);
      for i := 0 to |v|
        invariant buf.len <= pos <= buf.len + 2 * i
        invariant r.data[..pos] == before + Escape(DoubledQuotes, v[..i])
      {
        EscapeAfter(before, DoubledQuotes, v, i);
        pos := PutDoubled(r.data, pos, v[i]);
      }
      assert v[..|v|] == v;
      r := Slice(r.data, pos);
    }

    method EscapeBytesBackslash(buf: Slice, v: seq<byte>) returns (r: Slice)
      requires buf.Valid()
      modifies buf.data
      ensures r.Valid() && (r.data == buf.data || fresh(r.data))
      ensures r.Contents() == old(buf.Contents()) + Escape(AllSpecials, v)
    {
      var pos := buf.len;
      ghost var before := buf.Contents();
      r := ReserveBuffer(buf, |v| * 2);
      for i := 0 to |v|
        invariant buf.len <= pos <= buf.len + 2 * i
        invariant r.data[..pos] == before + Escape(AllSpecials, v[..i])
      {
        EscapeAfter(before, AllSpecials, v, i);
        pos := PutBackslash(r.data, pos, v[i]);
      }
      assert v[..|v|] == v;
      r := Slice(r.data, pos);
    }

    method EscapeStringBackslash(buf: Slice, v: seq<byte>) returns (r: Slice)
      requires buf.Valid()
      modifies buf.data
      ensures r.Valid() && (r.data == buf.data || fresh(r.data))
      ensures r.Contents() == old(buf.Contents()) + Escape(AllSpecials, v)
    {
      var pos := buf.len;
      ghost var before := buf.Contents();
      r := ReserveBuffer(buf, |v| * 2);
      var i := 0;
      while i < |v|
        invariant i <= |v| && buf.len <= pos <= buf.len + 2 * i
        invariant r.data[..pos] == before + Escape(AllSpecials, v[..i])
      {
        EscapeAfter(before, AllSpecials, v, i);
        pos := PutBackslash(r.data, pos, v[i]);
        i := i + 1;
      }
      assert v[..|v|] == v;
      r := Slice(r.data, pos);
    }

    method EscapeStringQuotes(buf: Slice, v: seq<byte>) returns (r: Slice)
      requires buf.Valid()
      modifies buf.data
      ensures r.Valid() && (r.data == buf.data || fresh(r.data))
      ensures r.Contents() == old(buf.Contents()) + Escape(DoubledQuotes, v)
    {
      var pos := buf.len;
      ghost var before := buf.Contents();
      r := ReserveBuffer(buf, |v| * 2);
      var i := 0;
      while i < |v|
        invariant i <= |v| && buf.len <= pos <= buf.len + 2 * i
        invariant r.data[..pos] == before + Escape(DoubledQuotes, v[..i])
      {
        EscapeAfter(before, DoubledQuotes, v, i);
        pos := PutDoubled(r.data, pos, v[i]);
        i := i + 1;
      }
      assert v[..|v|] == v;
      r := Slice(r.data, pos);
    }

    /** A string between quotes. */
    method AppendString(buf: Slice, v: seq<byte>) returns (r: Slice)
      requires buf.Valid()
      modifies buf.data
      ensures r.Valid() && (r.data == buf.data || fresh(r.data))
      ensures r.Contents() == old(buf.Contents()) + ([QUOTE] + Escape(SqlStyle(), v) + [QUOTE])
      ensures old(buf.Contents()) + [QUOTE] <= r.Contents()
      ensures ReadLiteral(if escapeUsingQuotes then Quotes else Backslash, r.Contents()[buf.len + 1..])
        == Some(Literal(v, []))
    {
      r := Append(buf, [QUOTE]);
      if escapeUsingQuotes {
        r := EscapeStringQuotes(r, v);
      } else {
        r := EscapeStringBackslash(r, v);
      }
      r := Append(r, [QUOTE]);
      StringReads(SqlStyle(), old(buf.Contents()), v);
    }

    /** A time's digits, taken from the two tables, or no text if an index is outside them. */
    method AppendTime(buf: Slice, v: WallClock) returns (r: Slice, err: Option<Error>)
      requires buf.Valid()
      modifies buf.data
      ensures r.Valid() && (r.data == buf.data || fresh(r.data))
      ensures err == if 0 <= v.year <= 9999 then None else Some(IndexOutOfRange)
      ensures err == None ==> r.Contents() == old(buf.Contents()) + DateText(v)
    {
      r, err := buf, None;
      var year100, year1 := Quotient(v.year, 100), Remainder(v.year, 100);
      YearInTables(v.year);
      if !(0 <= year100 < |DIGITS10| && 0 <= year1 < |DIGITS10|) {
        err := Some(IndexOutOfRange);  // the source panics here
        return;
      }
      var micro := v.nano / 1000;
      r := Append(buf, [QUOTE]);
      PrintSeconds(v);
      r := Append(r, TwoDigits(year100) + (TwoDigits(year1) +
        ([MINUS] + TwoDigits(v.month) + ([MINUS] + TwoDigits(v.day) +
        ([SPACE] + TwoDigits(v.hour) + ([COLON] + TwoDigits(v.minute) + ([COLON] + TwoDigits(v.second))))))));
      ghost var fraction := Print(MicroMarks(micro));
      if micro != 0 {
        PrintMicro(micro);
        r := Append(r, [DOT] + TwoDigits(micro / 10000) + (TwoDigits(micro / 100 % 100) + TwoDigits(micro % 100)));
      }
      r := Append(r, [QUOTE]);
      PrintConcat(SecondMarks(v), MicroMarks(micro));
      Regroup5(old(buf.Contents()), [QUOTE], Print(SecondMarks(v)), fraction, [QUOTE]);
    }

    /** A byte slice between quotes, with its introducer. */
    method AppendBinary(buf: Slice, v: seq<byte>) returns (r: Slice)
      requires buf.Valid()
      modifies buf.data
      ensures r.Valid() && (r.data == buf.data || fresh(r.data))
      ensures r.Contents() == old(buf.Contents()) + (BinaryPrefix() + ([QUOTE] + Escape(SqlStyle(), v) + [QUOTE]))
      ensures old(buf.Contents()) + Ascii("_binary'") <= r.Contents()
      ensures ReadLiteral(if escapeUsingQuotes then Quotes else Backslash, r.Contents()[buf.len + 8..])
        == Some(Literal(v, []))
    {
      var prefix := BinaryPrefix();
      r := Append(buf, prefix + [QUOTE]);
      if escapeUsingQuotes {
        r := EscapeBytesQuotes(r, v);
      } else {
        r := EscapeBytesBackslash(r, v);
      }
      r := Append(r, [QUOTE]);
      RegroupQuoted(old(buf.Contents()), prefix, Escape(SqlStyle(), v));
      assert Ascii("_binary'") == prefix + [QUOTE];
      QuotedReads(SqlStyle(), old(buf.Contents()), prefix, v);
    }

    /** The cases of the type switch that print without quotes. */
    method AppendScalar(buf: Slice, arg: Arg) returns (r: Slice)
      requires buf.Valid()
      requires arg.Nil? || arg.Int? || arg.Float? || arg.Bool? || arg.NilBytes?
      modifies buf.data
      ensures r.Valid() && (r.data == buf.data || fresh(r.data))
      ensures r.Contents() == old(buf.Contents()) + Render(SqlStyle(), arg)
    {
      match arg {
        case Nil => r := Append(buf, NullText());
        case Int(n) => r := Append(buf, IntText(n));
        case Float(text) => r := Append(buf, text);
        case Bool(b) => r := Append(buf, [if b then ONE else ZERO]);
        case NilBytes => r := Append(buf, NullText());
      }
    }

    /** The type switch: an argument's text, or why it has none. */
    method AppendArg(buf: Slice, arg: Arg) returns (r: Slice, err: Option<Error>)
      requires buf.Valid()
      modifies buf.data
      ensures r.Valid() && (r.data == buf.data || fresh(r.data))
      ensures err == Refusal(arg)
      ensures err == None ==> r.Contents() == old(buf.Contents()) + Render(SqlStyle(), arg)
    {
      r, err := buf, None;
      match arg {
        case Other => err := Some(UnsupportedType);
        case Time(v) => r, err := AppendTime(buf, v);
        case ZeroTime => r := Append(buf, [QUOTE] + ZeroTimeText() + [QUOTE]);
        case Binary(v) => r := AppendBinary(buf, v);
        case Str(v) => r := AppendString(buf, v);
        case _ => r := AppendScalar(buf, arg);
      }
    }

    /** One argument and the packet limit, which a nil argument skips. */
    method AppendMeasured(buf: Slice, arg: Arg) returns (r: Slice, err: Option<Error>)
      requires buf.Valid()
      modifies buf.data
      ensures r.Valid() && (r.data == buf.data || fresh(r.data))
      ensures AddArg(SqlStyle(), maxAllowedPacket, Ok(old(buf.Contents())), arg)
        == if err.Some? then Err(err.value) else Ok(r.Contents())
    {
      r, err := AppendArg(buf, arg);
      if err == None && arg != Nil && r.len + 4 > maxAllowedPacket {
        err := Some(TooLarge);
      }
    }

    /** What has been built from the first `i` bytes of the template and `argPos` arguments. */
    ghost predicate Built(buf: Slice, query: seq<byte>, i: nat, args: seq<Arg>, argPos: nat)
      reads buf.data
    {
      && buf.Valid() && i <= |query| && argPos <= |args| && Count(query[..i], QUESTION) == argPos
      && Outcome(SqlStyle(), maxAllowedPacket, query[..i], args[..argPos]) == Ok(buf.Contents())
    }

    /** Copies the text up to the next placeholder, or to the end. */
    method CopyText(buf: Slice, query: seq<byte>, i: nat, ghost args: seq<Arg>, ghost argPos: nat)
      returns (r: Slice, end: nat)
      requires Built(buf, query, i, args, argPos)
      modifies buf.data
      ensures r.data == buf.data || fresh(r.data)
      ensures i <= end && Built(r, query, end, args, argPos)
      ensures end < |query| ==> query[end] == QUESTION
    {
      var q := IndexByte(query, i, QUESTION);
      end := if q == -1 then |query| else i + q;
      OutcomeOfText(SqlStyle(), maxAllowedPacket, query[..i], query[i..end], args[..argPos]);
      assert query[..i] + query[i..end] == query[..end];
      r := Append(buf, query[i..end]);
    }

    /** A placeholder: there is an argument left for it, and if it fails, so does the whole. */
    method BindNext(buf: Slice, query: seq<byte>, i: nat, args: seq<Arg>, argPos: nat)
      returns (r: Slice, err: Option<Error>)
      requires Built(buf, query, i, args, argPos) && Count(query, QUESTION) == |args|
      requires i < |query| && query[i] == QUESTION
      modifies buf.data
      ensures r.data == buf.data || fresh(r.data)
      ensures argPos < |args|
      ensures err == None ==> Built(r, query, i + 1, args, argPos + 1)
      ensures err != None ==> Outcome(SqlStyle(), maxAllowedPacket, query, args) == Err(err.value)
    {
      ArgStep(SqlStyle(), maxAllowedPacket, query, args, query[..i], args[..argPos]);
      assert query[..i + 1] == query[..i] + [QUESTION] && args[..argPos + 1] == args[..argPos] + [args[argPos]];
      var arg := args[argPos];
      r, err := AppendMeasured(buf, arg);
    }

    method GetBuiltSQL(query: seq<byte>, args: seq<Arg>) returns (result: Result)
      ensures Count(query, QUESTION) != |args| ==> result == Err(Unmatched)
      ensures Count(query, QUESTION) == |args| ==>
        result == Outcome(SqlStyle(), maxAllowedPacket, query, args)
    {
      if Count(query, QUESTION) != |args| {
        return Err(Unmatched);
      }
      var data := new byte[4096];
      var buf, argPos, i := Slice(data, 0), 0, 0;
      while i < |query|
        invariant Built(buf, query, i, args, argPos) && fresh(buf.data)
      {
        buf, i := CopyText(buf, query, i, args, argPos);
        if i == |query| {
          break;
        }
        var err;
        buf, err := BindNext(buf, query, i, args, argPos);
        if err.Some? {
          return Err(err.value);
        }
        argPos, i := argPos + 1, i + 1;
      }
      assert query[..i] == query;
      assert argPos == |args|;  // so the second "unmatched" error is never returned
      assert args[..argPos] == args;
      return Ok(buf.data[..buf.len]);
    }
  }

  lemma CountThree(a: seq<byte>, c: byte, b: seq<byte>)
    ensures Count(a + [c] + b, c) == Count(a, c) + 1 + Count(b, c)
  {
    CountOne(c);
    CountConcat(a, [c], c);
    CountConcat(a + [c], b, c);
  }

  // The loop's step over a placeholder: there is an argument left for it, and a failure
  // there is the outcome of the whole.
  lemma ArgStep(style: Style, max: int, query: seq<byte>, args: seq<Arg>, seen: seq<byte>, given: seq<Arg>)
    requires Count(query, QUESTION) == |args| && Count(seen, QUESTION) == |given|
    requires |seen| < |query| && seen == query[..|seen|] && query[|seen|] == QUESTION
    requires |given| <= |args| && given == args[..|given|]
    ensures |given| < |args| && Count(seen + [QUESTION], QUESTION) == |given| + 1
    ensures var a := args[|given|];
      var r := AddArg(style, max, Outcome(style, max, seen, given), a);
      && Outcome(style, max, seen + [QUESTION], given + [a]) == r
      && (r.Err? ==> Outcome(style, max, query, args) == r)
  {
    var rest := query[|seen| + 1..];
    assert query == seen + [QUESTION] + rest;
    CountThree(seen, QUESTION, rest);
    var a, more := args[|given|], args[|given| + 1..];
    assert args == given + [a] + more;
    OutcomeOfPlaceholder(style, max, seen, given, a);
    if Outcome(style, max, seen + [QUESTION], given + [a]).Err? {
      FailureStays(style, max, seen + [QUESTION], given + [a], rest, more);
    }
  }

  /** A builder for servers with backslash escapes leaves no special byte raw in a literal. */
  lemma BuilderLeavesNothingRaw(c: MySQLInterpolate, v: seq<byte>)
    requires !c.escapeUsingQuotes
    ensures NothingRaw(Escape(c.SqlStyle(), v))
  {
    NoRawSpecials(v);
  }
}

/** The frames of the Redis serialization protocol that the server and Home exchange, as functions on bytes. */
module Resp {
  import opened Base
  import opened Parsing

  const CR: byte := 13
  const LF: byte := 10
  const PLUS: byte := 43
  const MINUS: byte := 45
  const COLON: byte := 58
  const STAR: byte := 42
  const DOLLAR: byte := 36
  const CRLF: Bytes := [CR, LF]

  /** Bounds of the machine integer that lengths and counts are parsed into. */
  const MAX_INT: int := 0x7FFF_FFFF_FFFF_FFFF
  const MIN_INT: int := -0x8000_0000_0000_0000

  /** The largest buffer and the longest list of strings (16 bytes each) that the runtime makes. */
  const MAX_BUFFER: int := 0x1_0000_0000_0000
  const MAX_STRINGS: int := 0x1000_0000_0000

  predicate IsInt(n: int) {
    MIN_INT <= n <= MAX_INT
  }

  /** The bytes of an ASCII literal. */
  function Ascii(s: string): Bytes {
    seq(|s|, i requires 0 <= i < |s| => (s[i] as int % 256) as byte)
  }

  // ------------------------------------------------------------------ decimal text

  predicate IsDigit(b: byte) {
    48 <= b <= 57
  }

  function Digits(n: nat): (r: Bytes)
    ensures |r| > 0 && forall i | 0 <= i < |r| :: IsDigit(r[i])
  {
    if n < 10 then [(48 + n) as byte] else Digits(n / 10) + [(48 + n % 10) as byte]
  }

  function Itoa(n: int): (r: Bytes)
    ensures forall i | 0 <= i < |r| :: IsDigit(r[i]) || r[i] == MINUS
  {
    if n < 0 then [MINUS] + Digits(-n) else Digits(n)
  }

  function Value(digits: Bytes): Option<nat> {
    if digits == [] then Some(0)
    else
      var last := digits[|digits| - 1];
      match Value(digits[..|digits| - 1])
      case Some(v) => if IsDigit(last) then Some(10 * v + (last - 48) as nat) else None
      case None => None
  }

  /** A decimal integer with an optional sign, if it fits a machine integer. */
  function Atoi(text: Bytes): Option<int> {
    if text == [] then None
    else
      var signed := text[0] == PLUS || text[0] == MINUS;
      var digits := if signed then text[1..] else text;
      if digits == [] then None
      else match Value(digits)
        case None => None
        case Some(v) =>
          var n: int := if text[0] == MINUS then -(v as int) else v as int;
          if IsInt(n) then Some(n) else None
  }

  lemma {:induction false} ValueOfDigits(n: nat)
    ensures Value(Digits(n)) == Some(n)
  {
    if n >= 10 {
      ValueOfDigits(n / 10);
      var r := Digits(n);
      assert r[..|r| - 1] == Digits(n / 10);
    } else {
      assert Digits(n)[..0] == [];
    }
  }

  lemma AtoiOfItoa(n: int)
    requires IsInt(n)
    ensures Atoi(Itoa(n)) == Some(n)
  {
    if n < 0 {
      ValueOfDigits(-n);
      assert Itoa(n)[1..] == Digits(-n);
    } else {
      ValueOfDigits(n);
      assert IsDigit(Digits(n)[0]);
    }
  }

  lemma {:induction false} ValueOfZeros(zeros: Bytes)
    requires forall i | 0 <= i < |zeros| :: zeros[i] == 48
    ensures Value(zeros) == Some(0)
  {
    if zeros != [] { ValueOfZeros(zeros[..|zeros| - 1]); }
  }

  lemma {:induction false} ValueOfPadded(zeros: Bytes, n: nat)
    requires forall i | 0 <= i < |zeros| :: zeros[i] == 48
    ensures Value(zeros + Digits(n)) == Some(n)
  {
    var r := zeros + Digits(n);
    if n >= 10 {
      ValueOfPadded(zeros, n / 10);
      assert r[..|r| - 1] == zeros + Digits(n / 10);
    } else {
      ValueOfZeros(zeros);
      assert r[..|r| - 1] == zeros;
    }
  }

  lemma {:induction false} ValueRejects(digits: Bytes, i: nat)
    requires i < |digits| && !IsDigit(digits[i])
    ensures Value(digits) == None
  {
    if i < |digits| - 1 { ValueRejects(digits[..|digits| - 1], i); }
  }

  lemma AtoiOfDigits(sign: Bytes, digits: Bytes, n: nat)
    requires sign == [] || sign == [PLUS] || sign == [MINUS]
    requires digits != [] && IsDigit(digits[0]) && Value(digits) == Some(n)
    ensures var v := if sign == [MINUS] then -(n as int) else n as int;
      Atoi(sign + digits) == if MIN_INT <= v <= MAX_INT then Some(v) else None
  {
    var text := sign + digits;
    if sign == [] {
      assert text == digits;
    } else {
      assert text[1..] == digits && text[0] == sign[0];
    }
  }

  /** Every spelling of a decimal number: with or without a sign, with leading zeros, and too large or not. */
  lemma AtoiIsDecimal(sign: Bytes, zeros: Bytes, n: nat)
    requires sign == [] || sign == [43] || sign == [45]
    requires forall i | 0 <= i < |zeros| :: zeros[i] == 48
    ensures var v := if sign == [45] then -(n as int) else n as int;
      Atoi(sign + (zeros + Digits(n))) == if MIN_INT <= v <= MAX_INT then Some(v) else None
  {
    ValueOfPadded(zeros, n);
    AtoiOfDigits(sign, zeros + Digits(n), n);
  }

  /** Nothing else is a number. */
  lemma AtoiRejects(text: Bytes, i: nat)
    requires i < |text| && !IsDigit(text[i]) && (i == 0 ==> (text[0] != PLUS && text[0] != MINUS) || |text| == 1)
    ensures Atoi(text) == None && Atoi([]) == None
  {
    if i > 0 && (text[0] == PLUS || text[0] == MINUS) {
      ValueRejects(text[1..], i - 1);
    } else if text[0] != PLUS && text[0] != MINUS {
      ValueRejects(text, i);
    }
  }

  // -------------------------------------------------------------------- reading

  /** The index of the first line feed from `i` on, or -1. */
  function FindLf(b: Bytes, i: nat): (r: int)
    requires i <= |b|
    ensures r == -1 || (i <= r < |b| && b[r] == LF)
    ensures forall j | i <= j < |b| && (r < 0 || j < r) :: b[j] != LF
    decreases |b| - i
  {
    if i == |b| then -1 else if b[i] == LF then i else FindLf(b, i + 1)
  }

  function DropCr(line: Bytes): Bytes {
    if line != [] && line[|line| - 1] == CR then line[..|line| - 1] else line
  }

  /** Everything up to a line feed, without it and without a carriage return before it. */
  function ParseLine(b: Bytes): (p: Parsed<Bytes>)
    ensures |p.rest| <= |b|
  {
    var at := FindLf(b, 0);
    if at < 0 then Failed(Eof, []) else Done(DropCr(b[..at]), b[at + 1..])
  }

  /** A bulk string after its `$`. A negative length reads as the empty string. */
  function ParseBulk(b: Bytes): (p: Parsed<Bytes>)
    ensures |p.rest| <= |b|
  {
    match ParseLine(b)
    case Failed(e, rest) => Failed(e, rest)
    case Done(line, rest) =>
      match Atoi(line)
      case None => Failed(Protocol, rest)
      case Some(n) =>
        if n < 0 then Done([], rest)
        else if n + 2 > MAX_BUFFER then Failed(TooLarge, rest)
        else if |rest| < n + 2 then Failed(if rest == [] then Eof else UnexpectedEof, [])
        else if rest[n] != CR || rest[n + 1] != LF then Failed(Protocol, rest[n + 2..])
        else Done(rest[..n], rest[n + 2..])
  }

  function ParseString(b: Bytes): (p: Parsed<Bytes>)
    ensures |p.rest| <= |b|
  {
    if b == [] then Failed(Eof, [])
    else if b[0] == DOLLAR then ParseBulk(b[1..])
    else if b[0] == PLUS || b[0] == COLON then ParseLine(b[1..])
    else Failed(Protocol, b[1..])
  }

  function ParseStrings(b: Bytes, n: nat): Parsed<seq<Bytes>> {
    ParseMany(ParseString, b, n)
  }

  /** One command: an array of strings. */
  function ParseArray(b: Bytes): Parsed<seq<Bytes>> {
    if b == [] then Failed(Eof, [])
    else if b[0] != STAR then Failed(Protocol, b[1..])
    else match ParseLine(b[1..])
      case Failed(e, rest) => Failed(e, rest)
      case Done(line, rest) =>
        match Atoi(line)
        case None => Failed(Protocol, rest)
        case Some(n) =>
          if n < 0 then Failed(Protocol, rest)
          else if n > MAX_STRINGS then Failed(TooLarge, rest)
          else ParseStrings(rest, n)
  }

  // -------------------------------------------------------------------- writing

  /** An element of an array the server writes; `Null` is a payload that is a nil slice. */
  datatype Field = Bulk(payload: Bytes) | Null | Integer(n: int)

  /** What a reader of commands makes of a field. */
  function Text(f: Field): Bytes {
    match f
    case Bulk(payload) => payload
    case Null => []
    case Integer(n) => Itoa(n)
  }

  predicate Fits(f: Field) {
    match f
    case Bulk(payload) => |payload| + 2 <= MAX_BUFFER
    case Null => true
    case Integer(n) => IsInt(n)
  }

  function EncodeBulk(payload: Bytes): Bytes {
    [DOLLAR] + Itoa(|payload|) + CRLF + payload + CRLF
  }

  function EncodeField(f: Field): Bytes {
    match f
    case Bulk(payload) => EncodeBulk(payload)
    case Null => [DOLLAR] + Itoa(-1) + CRLF
    case Integer(n) => [COLON] + Itoa(n) + CRLF
  }

  function Encoded(fs: seq<Field>): seq<Bytes> {
    seq(|fs|, i requires 0 <= i < |fs| => EncodeField(fs[i]))
  }

  function EncodeFields(fs: seq<Field>): Bytes {
    Concat(Encoded(fs))
  }

  function EncodeFrame(fs: seq<Field>): Bytes {
    [STAR] + Itoa(|fs|) + CRLF + EncodeFields(fs)
  }

  /** A command is an array of bulk strings. */
  function Fields(args: seq<Bytes>): seq<Field> {
    seq(|args|, i requires 0 <= i < |args| => Bulk(args[i]))
  }

  function Texts(fs: seq<Field>): seq<Bytes> {
    seq(|fs|, i requires 0 <= i < |fs| => Text(fs[i]))
  }

  ghost predicate AllFit(fs: seq<Field>) {
    |fs| <= MAX_STRINGS && forall i | 0 <= i < |fs| :: Fits(fs[i])
  }

  // --------------------------------------------------------------- the bytes on the wire

  /** Numbers are printed in decimal, most significant digit first. */
  lemma DecimalText(n: int, digit: int)
    requires 0 <= n && 0 <= digit < 10
    ensures Itoa(digit) == [(digit + '0' as int) as byte]
    ensures n > 0 ==> Itoa(10 * n + digit) == Itoa(n) + Itoa(digit)
    ensures n > 0 ==> Itoa(-n) == Ascii("-") + Itoa(n)
  {
    assert (10 * n + digit) / 10 == n && (10 * n + digit) % 10 == digit;
    assert Ascii("-") == [MINUS];
  }

  lemma Letters()
    ensures Ascii("$") == [DOLLAR] && Ascii(":") == [COLON] && Ascii("*") == [STAR]
    ensures Ascii("+") == [PLUS] && Ascii("-") == [MINUS] && Ascii("\r\n") == CRLF
  {
  }

  /** The prefixes and line ends of RESP2, in ASCII. */
  lemma WireForm(fs: seq<Field>, payload: Bytes, n: int)
    ensures EncodeField(Bulk(payload)) == Ascii("$") + Itoa(|payload|) + Ascii("\r\n") + payload + Ascii("\r\n")
    ensures EncodeField(Null) == Ascii("$") + Itoa(-1) + Ascii("\r\n")
    ensures EncodeField(Integer(n)) == Ascii(":") + Itoa(n) + Ascii("\r\n")
    ensures EncodeFrame(fs) == Ascii("*") + Itoa(|fs|) + Ascii("\r\n") + EncodeFields(fs)
  {
    Letters();
  }

  // ------------------------------------------------------------- print, then parse

  /** One carriage return is dropped, so even a line that ends in one is read exactly. */
  lemma LineRoundTrip(line: Bytes, rest: Bytes)
    requires forall i | 0 <= i < |line| :: line[i] != LF
    ensures ParseLine(line + CRLF + rest) == Done(line, rest)
  {
    var b := line + CRLF + rest;
    var at := FindLf(b, 0);
    assert b[|line|] == CR && b[|line| + 1] == LF;
    assert forall j | 0 <= j < |line| :: b[j] == line[j];
    assert at == |line| + 1;
    assert b[..at] == line + [CR];
    assert b[at + 1..] == rest;
  }

  lemma NumberRoundTrip(n: int, rest: Bytes)
    requires IsInt(n)
    ensures ParseLine(Itoa(n) + CRLF + rest) == Done(Itoa(n), rest) && Atoi(Itoa(n)) == Some(n)
  {
    AtoiOfItoa(n);
    LineRoundTrip(Itoa(n), rest);
  }

  lemma BulkRoundTrip(payload: Bytes, rest: Bytes)
    requires |payload| + 2 <= MAX_BUFFER
    ensures ParseString(EncodeBulk(payload) + rest) == Done(payload, rest)
  {
    var b := EncodeBulk(payload) + rest;
    var tail := payload + CRLF + rest;
    assert b[1..] == Itoa(|payload|) + CRLF + tail;
    NumberRoundTrip(|payload|, tail);
    assert tail[..|payload|] == payload && tail[|payload| + 2..] == rest;
  }

  lemma NullRoundTrip(rest: Bytes)
    ensures ParseString(EncodeField(Null) + rest) == Done([], rest)
  {
    assert (EncodeField(Null) + rest)[1..] == Itoa(-1) + CRLF + rest;
    NumberRoundTrip(-1, rest);
  }

  lemma IntegerRoundTrip(n: int, rest: Bytes)
    requires IsInt(n)
    ensures ParseString(EncodeField(Integer(n)) + rest) == Done(Itoa(n), rest)
  {
    assert (EncodeField(Integer(n)) + rest)[1..] == Itoa(n) + CRLF + rest;
    NumberRoundTrip(n, rest);
  }

  lemma FieldRoundTrip(f: Field, rest: Bytes)
    requires Fits(f)
    ensures ParseString(EncodeField(f) + rest) == Done(Text(f), rest)
  {
    match f
    case Bulk(payload) => BulkRoundTrip(payload, rest);
    case Null => NullRoundTrip(rest);
    case Integer(n) => IntegerRoundTrip(n, rest);
  }

  lemma FieldsRoundTrip(fs: seq<Field>, rest: Bytes)
    requires forall i | 0 <= i < |fs| :: Fits(fs[i])
    ensures ParseStrings(EncodeFields(fs) + rest, |fs|) == Done(Texts(fs), rest)
  {
    forall i | 0 <= i < |fs|
      ensures ReadsAs(ParseString, Encoded(fs)[i], Texts(fs)[i])
    {
      FieldReadsAs(fs[i]);
    }
    ManyReadBack(ParseString, Encoded(fs), Texts(fs), rest);
  }

  lemma FieldReadsAs(f: Field)
    requires Fits(f)
    ensures ReadsAs(ParseString, EncodeField(f), Text(f))
  {
    forall rest
      ensures ParseString(EncodeField(f) + rest) == Done(Text(f), rest)
    {
      FieldRoundTrip(f, rest);
    }
  }

  /** Any array the printers write reads back as its fields, whatever follows it. */
  lemma FrameRoundTrip(fs: seq<Field>, rest: Bytes)
    requires AllFit(fs)
    ensures ParseArray(EncodeFrame(fs) + rest) == Done(Texts(fs), rest)
  {
    var b := EncodeFrame(fs) + rest;
    var tail := EncodeFields(fs) + rest;
    assert b[0] == STAR && b[1..] == Itoa(|fs|) + CRLF + tail;
    NumberRoundTrip(|fs|, tail);
    assert ParseArray(b) == ParseStrings(tail, |fs|);
    FieldsRoundTrip(fs, rest);
  }

  /** The pub/sub frames and item lists of the server read back as their fields; a nil payload reads as empty. */
  lemma ServerFramesReadBack(channel: Bytes, count: int, payload: Field, items: seq<Field>, rest: Bytes)
    requires |channel| + 2 <= MAX_BUFFER && IsInt(count) && Fits(payload) && AllFit(items)
    ensures ParseArray(EncodeFrame([Bulk(Ascii("subscribe")), Bulk(channel), Integer(count)]) + rest)
         == Done([Ascii("subscribe"), channel, Itoa(count)], rest)
    ensures ParseArray(EncodeFrame([Bulk(Ascii("unsubscribe")), Bulk(channel), Integer(count)]) + rest)
         == Done([Ascii("unsubscribe"), channel, Itoa(count)], rest)
    ensures ParseArray(EncodeFrame([Bulk(Ascii("message")), Bulk(channel), payload]) + rest)
         == Done([Ascii("message"), channel, Text(payload)], rest)
    ensures ParseArray(EncodeFrame([Bulk(Ascii("pong")), payload]) + rest) == Done([Ascii("pong"), Text(payload)], rest)
    ensures ParseArray(EncodeFrame(items) + rest) == Done(Texts(items), rest)
  {
    ThreeReadBack(Bulk(Ascii("subscribe")), Bulk(channel), Integer(count), rest);
    ThreeReadBack(Bulk(Ascii("unsubscribe")), Bulk(channel), Integer(count), rest);
    ThreeReadBack(Bulk(Ascii("message")), Bulk(channel), payload, rest);
    TwoReadBack(Bulk(Ascii("pong")), payload, rest);
    FrameRoundTrip(items, rest);
  }

  lemma TwoReadBack(a: Field, b: Field, rest: Bytes)
    requires Fits(a) && Fits(b)
    ensures ParseArray(EncodeFrame([a, b]) + rest) == Done([Text(a), Text(b)], rest)
  {
    FrameRoundTrip([a, b], rest);
    assert Texts([a, b]) == [Text(a), Text(b)];
  }

  lemma ThreeReadBack(a: Field, b: Field, c: Field, rest: Bytes)
    requires Fits(a) && Fits(b) && Fits(c)
    ensures ParseArray(EncodeFrame([a, b, c]) + rest) == Done([Text(a), Text(b), Text(c)], rest)
  {
    FrameRoundTrip([a, b, c], rest);
    assert Texts([a, b, c]) == [Text(a), Text(b), Text(c)];
  }

  // ---------------------------------------------------------------- pipelining

  function EncodeCommand(args: seq<Bytes>): Bytes {
    EncodeFrame(Fields(args))
  }

  function EncodeAll(commands: seq<seq<Bytes>>): Bytes {
    Concat(EncodedCommands(commands))
  }

  function EncodedCommands(commands: seq<seq<Bytes>>): seq<Bytes> {
    seq(|commands|, i requires 0 <= i < |commands| => EncodeCommand(commands[i]))
  }

  /** Reads commands until one fails; a frame is never empty, so this ends. */
  function ParseAll(b: Bytes): (r: (seq<seq<Bytes>>, Error))
    decreases |b|
  {
    ParseShrinks(b);
    var p := ParseArray(b);
    if p.Failed? then ([], p.error)
    else ([p.value] + ParseAll(p.rest).0, ParseAll(p.rest).1)
  }

  ghost predicate CommandFits(args: seq<Bytes>) {
    |args| <= MAX_STRINGS && forall i | 0 <= i < |args| :: |args[i]| + 2 <= MAX_BUFFER
  }

  lemma CommandRoundTrip(args: seq<Bytes>, rest: Bytes)
    requires CommandFits(args)
    ensures ParseArray(EncodeCommand(args) + rest) == Done(args, rest)
  {
    FrameRoundTrip(Fields(args), rest);
    assert Texts(Fields(args)) == args;
  }

  /**
   A pipeline of commands, each of arbitrary byte strings, reads back as exactly
   those commands in order, and consumes every byte up to whatever follows.
   */
  lemma PipelineRoundTrip(commands: seq<seq<Bytes>>, rest: Bytes)
    requires forall i | 0 <= i < |commands| :: CommandFits(commands[i])
    ensures ParseMany(ParseArray, EncodeAll(commands) + rest, |commands|) == Done(commands, rest)
  {
    forall i | 0 <= i < |commands|
      ensures ReadsAs(ParseArray, EncodedCommands(commands)[i], commands[i])
    {
      CommandReadsAs(commands[i]);
    }
    ManyReadBack(ParseArray, EncodedCommands(commands), commands, rest);
  }

  lemma CommandReadsAs(args: seq<Bytes>)
    requires CommandFits(args)
    ensures ReadsAs(ParseArray, EncodeCommand(args), args)
  {
    forall rest
      ensures ParseArray(EncodeCommand(args) + rest) == Done(args, rest)
    {
      CommandRoundTrip(args, rest);
    }
  }

  /** Read until the stream ends, the pipeline gives exactly its commands and a clean end. */
  lemma {:induction false} PipelineEndsCleanly(commands: seq<seq<Bytes>>)
    requires forall i | 0 <= i < |commands| :: CommandFits(commands[i])
    ensures ParseAll(EncodeAll(commands)) == (commands, Eof)
  {
    if commands != [] {
      assert EncodedCommands(commands)[1..] == EncodedCommands(commands[1..]);
      CommandRoundTrip(commands[0], EncodeAll(commands[1..]));
      PipelineEndsCleanly(commands[1..]);
      assert ParseAll(EncodeAll(commands)).0 == [commands[0]] + commands[1..] == commands;
    }
  }

  lemma ParseShrinks(b: Bytes)
    ensures ParseArray(b).Done? ==> |ParseArray(b).rest| < |b|
  {
    if b != [] && b[0] == STAR && ParseLine(b[1..]).Done? {
      var n := Atoi(ParseLine(b[1..]).value);
      assert Shrinks(ParseString);
      if n.Some? && n.value >= 0 { ManyShrink(ParseString, ParseLine(b[1..]).rest, n.value); }
    }
  }

  // ------------------------------------------------------------- what is accepted at all

  /** A line, its end and what follows it. */
  ghost predicate LineForm(b: Bytes, line: Bytes, rest: Bytes) {
    LF !in line && b == line + [LF] + rest
  }

  lemma AcceptedLine(b: Bytes)
    requires ParseLine(b).Done?
    ensures var p := ParseLine(b); exists line :: LineForm(b, line, p.rest) && p.value == DropCr(line)
  {
    var at := FindLf(b, 0);
    assert b == b[..at] + [LF] + b[at + 1..];
    assert LineForm(b, b[..at], ParseLine(b).rest);
  }

  /** `v` before its own line end; a negative length stands for the empty string. */
  predicate PayloadForm(tail: Bytes, n: int, v: Bytes, rest: Bytes) {
    if n < 0 then v == [] && rest == tail else |v| == n && tail == v + CRLF + rest
  }

  /** The payload after a line that announces its length. */
  ghost predicate BulkForm(b: Bytes, v: Bytes, rest: Bytes) {
    exists line, tail ::
      LineForm(b, line, tail) && Atoi(DropCr(line)).Some? && PayloadForm(tail, Atoi(DropCr(line)).value, v, rest)
  }

  lemma AcceptedPayload(tail: Bytes, n: nat)
    requires n + 2 <= |tail| && tail[n] == CR && tail[n + 1] == LF
    ensures PayloadForm(tail, n, tail[..n], tail[n + 2..])
  {
    assert tail[n..n + 2] == CRLF;
    assert tail == tail[..n] + tail[n..n + 2] + tail[n + 2..];
  }

  lemma AcceptedBulk(b: Bytes)
    requires ParseBulk(b).Done?
    ensures BulkForm(b, ParseBulk(b).value, ParseBulk(b).rest)
  {
    AcceptedLine(b);
    var tail, n := ParseLine(b).rest, Atoi(ParseLine(b).value).value;
    if n >= 0 { AcceptedPayload(tail, n); }
    assert PayloadForm(tail, n, ParseBulk(b).value, ParseBulk(b).rest);
  }

  /** Whatever the server accepts as a string is a bulk string, a simple string or an integer in the form of RESP2. */
  lemma AcceptedString(b: Bytes)
    requires ParseString(b).Done?
    ensures var p := ParseString(b);
      && b != []
      && (b[..1] == Ascii("$") || b[..1] == Ascii("+") || b[..1] == Ascii(":"))
      && if b[..1] == Ascii("$") then BulkForm(b[1..], p.value, p.rest)
         else exists line :: LineForm(b[1..], line, p.rest) && p.value == DropCr(line)
  {
    Letters();
    assert b[..1] == [b[0]];
    if b[0] == DOLLAR { AcceptedBulk(b[1..]); } else { AcceptedLine(b[1..]); }
  }

  /** A command starts with a star and the number of its arguments, and everything else is refused as malformed. */
  lemma AcceptedCommand(b: Bytes)
    requires b != [] && FindLf(b, 0) > 0
    ensures var p, line := ParseArray(b), ParseLine(b[1..]);
      && line.Done?
      && (b[..1] != Ascii("*") || Atoi(line.value) == None || Atoi(line.value).value < 0 ==>
            p.Failed? && p.error == Protocol)
      && (p.Done? ==> Atoi(line.value) == Some(|p.value|))
  {
    Letters();
    assert b[..1] == [b[0]];
    var at := FindLf(b, 0);
    assert b[1..][at - 1] == LF;
    if ParseArray(b).Done? { ManyCount(ParseString, ParseLine(b[1..]).rest, Atoi(ParseLine(b[1..]).value).value); }
  }

  // ---------------------------------------------------------------- prefix freedom

  lemma LineExtends(b: Bytes, more: Bytes)
    ensures Extends(ParseLine(b), ParseLine(b + more), more)
    ensures ParseLine(b).Failed? ==> ParseLine(b).error == Eof
  {
    var at := FindLf(b, 0);
    if at >= 0 {
      assert (b + more)[at] == LF && forall j | 0 <= j < at :: (b + more)[j] == b[j];
      assert FindLf(b + more, 0) == at;
      assert (b + more)[..at] == b[..at];
      assert (b + more)[at + 1..] == b[at + 1..] + more;
    }
  }

  lemma BulkExtends(b: Bytes, more: Bytes)
    ensures Extends(ParseBulk(b), ParseBulk(b + more), more)
  {
    LineExtends(b, more);
    if ParseLine(b).Done? && Atoi(ParseLine(b).value).Some? {
      var rest, n := ParseLine(b).rest, Atoi(ParseLine(b).value).value;
      if 0 <= n && n + 2 <= |rest| {
        assert (rest + more)[..n] == rest[..n];
        assert (rest + more)[n + 2..] == rest[n + 2..] + more;
      }
    }
  }

  lemma StringExtends(b: Bytes, more: Bytes)
    ensures Extends(ParseString(b), ParseString(b + more), more)
  {
    if b != [] {
      assert (b + more)[1..] == b[1..] + more && (b + more)[0] == b[0];
      if b[0] == DOLLAR {
        BulkExtends(b[1..], more);
      } else {
        LineExtends(b[1..], more);
      }
    }
  }

  lemma StringsExtend(b: Bytes, n: nat, more: Bytes)
    ensures Extends(ParseStrings(b, n), ParseStrings(b + more, n), more)
  {
    forall c
      ensures Extends(ParseString(c), ParseString(c + more), more)
    {
      StringExtends(c, more);
    }
    ManyExtend(ParseString, b, n, more);
  }

  lemma ArrayExtends(b: Bytes, more: Bytes)
    ensures Extends(ParseArray(b), ParseArray(b + more), more)
  {
    if b != [] {
      assert (b + more)[1..] == b[1..] + more;
      LineExtends(b[1..], more);
      if b[0] == STAR && ParseLine(b[1..]).Done? {
        var line, rest := ParseLine(b[1..]).value, ParseLine(b[1..]).rest;
        if Atoi(line).Some? && Atoi(line).value >= 0 { StringsExtend(rest, Atoi(line).value, more); }
      }
    }
  }

  /** Every proper prefix of a frame is recognised as cut short: it fails, never as malformed. */
  lemma ProperPrefixFails(fs: seq<Field>, n: nat)
    requires AllFit(fs) && n < |EncodeFrame(fs)|
    ensures var p := ParseArray(EncodeFrame(fs)[..n]); p.Failed? && !Final(p.error)
  {
    var b := EncodeFrame(fs);
    assert b[..n] + b[n..] == b && b + [] == b;
    FrameRoundTrip(fs, []);
    CutShort(b[..n], b[n..], Texts(fs));
  }

  lemma CutShort(b: Bytes, more: Bytes, args: seq<Bytes>)
    requires more != [] && ParseArray(b + more) == Done(args, [])
    ensures var p := ParseArray(b); p.Failed? && !Final(p.error)
  {
    ArrayExtends(b, more);
  }

  /** No frame starts another one. */
  lemma PrefixFree(fs: seq<Field>, gs: seq<Field>)
    requires AllFit(fs) && AllFit(gs)
    ensures !(EncodeFrame(fs) < EncodeFrame(gs))
  {
    var b, c := EncodeFrame(fs), EncodeFrame(gs);
    StartsNoOther(b, fs, gs);
    if |b| < |c| { assert c[..|b|] != b; }
  }

  lemma StartsNoOther(b: Bytes, fs: seq<Field>, gs: seq<Field>)
    requires AllFit(fs) && AllFit(gs) && b == EncodeFrame(fs)
    ensures forall n | 0 <= n < |EncodeFrame(gs)| :: EncodeFrame(gs)[..n] != b
  {
    FrameRoundTrip(fs, []);
    assert b + [] == b;
    forall n | 0 <= n < |EncodeFrame(gs)|
      ensures EncodeFrame(gs)[..n] != b
    {
      ProperPrefixFails(gs, n);
    }
  }

  // ------------------------------------------------------------- the Home certificate reader

  /** How reading one bulk reply from Home can end without a payload. */
  datatype HomeError = Io(error: Error) | BadSize | NilReply | Remote(message: Bytes) | BadPrefix(prefix: byte)

  datatype HomeReply = Payload(value: Bytes, rest: Bytes) | NoPayload(why: HomeError, rest: Bytes)

  predicate IsSpaceByte(b: byte) {
    b == 32 || 9 <= b <= 13
  }

  function Trim(s: Bytes): Bytes {
    if s == [] then s
    else if IsSpaceByte(s[0]) then Trim(s[1..])
    else if IsSpaceByte(s[|s| - 1]) then Trim(s[..|s| - 1])
    else s
  }

  predicate AllSpace(s: Bytes) {
    forall i | 0 <= i < |s| :: s[i] == 32 || 9 <= s[i] <= 13
  }

  /** What is left of a text is what stands between the white space at its ends. */
  lemma {:induction false} TrimPadded(left: Bytes, word: Bytes, right: Bytes)
    requires AllSpace(left) && AllSpace(right)
    requires word != [] ==> !IsSpaceByte(word[0]) && !IsSpaceByte(word[|word| - 1])
    ensures Trim(left + word + right) == word
    decreases |left| + |right|
  {
    var s := left + word + right;
    if left != [] {
      assert s[0] == left[0] && s[1..] == left[1..] + word + right;
      TrimPadded(left[1..], word, right);
    } else if right != [] {
      assert s == word + right;
      TrimRight(word, right);
    } else {
      assert s == word;
    }
  }

  lemma {:induction false} TrimRight(word: Bytes, right: Bytes)
    requires AllSpace(right)
    requires word != [] ==> !IsSpaceByte(word[0]) && !IsSpaceByte(word[|word| - 1])
    ensures Trim(word + right) == word
    decreases |right|
  {
    var s := word + right;
    if right == [] {
      assert s == word;
    } else if word == [] {
      assert s[0] == right[0] && s[1..] == word + right[1..];
      TrimRight(word, right[1..]);
    } else {
      var n := |right| - 1;
      assert s[0] == word[0] && s[|s| - 1] == right[n] && s[..|s| - 1] == word + right[..n];
      TrimRight(word, right[..n]);
    }
  }

  /** The payload whose length was announced as `text`; the two bytes after it are skipped unseen. */
  function ParseHomePayload(text: Bytes, b: Bytes): HomeReply {
    match Atoi(text)
    case None => NoPayload(BadSize, b)
    case Some(n) =>
      if n < 0 then NoPayload(NilReply, b)
      else if n + 2 > MAX_BUFFER then NoPayload(Io(TooLarge), b)
      else if |b| < n + 2 then NoPayload(Io(if b == [] then Eof else UnexpectedEof), [])
      else Payload(b[..n], b[n + 2..])
  }

  /** A bulk reply of Home, an error line, or a prefix that is neither. */
  function ParseHomeBulk(b: Bytes): HomeReply {
    if b == [] then NoPayload(Io(Eof), [])
    else
      var at := FindLf(b, 1);
      if b[0] != DOLLAR && b[0] != MINUS then NoPayload(BadPrefix(b[0]), b[1..])
      else if at < 0 then NoPayload(Io(Eof), [])
      else
        var text, rest := Trim(b[1..at + 1]), b[at + 1..];
        if b[0] == MINUS then NoPayload(Remote(text), rest) else ParseHomePayload(text, rest)
  }

  lemma TrimNumber(n: int)
    ensures Trim(Itoa(n) + CRLF) == Itoa(n)
  {
    var s := Itoa(n);
    assert !IsSpaceByte(s[0]) && !IsSpaceByte(s[|s| - 1]);
    assert (s + CRLF)[..|s| + 1] == s + [CR];
    assert (s + [CR])[..|s|] == s;
    assert Trim(s + [CR]) == Trim(s) == s;
  }

  /** The first line of a Home reply, between its prefix and what follows. */
  lemma HomeLine(prefix: byte, s: Bytes, tail: Bytes)
    requires prefix != LF && forall i | 0 <= i < |s| :: s[i] != LF
    ensures var b, at := [prefix] + s + CRLF + tail, |s| + 2;
      FindLf(b, 1) == at && b[1..at + 1] == s + CRLF && b[at + 1..] == tail
  {
    var b, at := [prefix] + s + CRLF + tail, |s| + 2;
    assert forall j | 1 <= j < 1 + |s| :: b[j] == s[j - 1];
    assert b[at - 1] == CR && b[at] == LF;
  }

  /** The server's bulk strings are what the Home reader reads. */
  lemma HomeBulkRoundTrip(payload: Bytes, rest: Bytes)
    requires |payload| + 2 <= MAX_BUFFER
    ensures ParseHomeBulk(EncodeBulk(payload) + rest) == Payload(payload, rest)
  {
    var s, tail := Itoa(|payload|), payload + CRLF + rest;
    assert EncodeBulk(payload) + rest == [DOLLAR] + s + CRLF + tail;
    HomeLine(DOLLAR, s, tail);
    TrimNumber(|payload|);
    AtoiOfItoa(|payload|);
    assert tail[..|payload|] == payload && tail[|payload| + 2..] == rest;
  }

  lemma HomeNullIsNoPayload(rest: Bytes)
    ensures ParseHomeBulk(EncodeField(Null) + rest) == NoPayload(NilReply, rest)
  {
    assert EncodeField(Null) + rest == [DOLLAR] + Itoa(-1) + CRLF + rest;
    HomeLine(DOLLAR, Itoa(-1), rest);
    TrimNumber(-1);
    AtoiOfItoa(-1);
  }
}

/** The readers and writers of the protocol, working step by step on a stream. */
module RespIo {
  import opened Base
  import opened Parsing
  import opened Resp

  /** The parser is `ParseString`; its definition is not needed to repeat it. */
  ghost predicate IsParseString(parse: Bytes -> Parsed<Bytes>) {
    forall b {:trigger ParseString(b)} :: parse(b) == ParseString(b)
  }

  /** Everything the peer sends before it closes the connection, and how much of it was read. */
  class Reader {
    const input: Bytes
    var pos: nat

    ghost predicate Valid()
      reads this
    {
      pos <= |input|
    }

    ghost function Rest(): Bytes
      requires Valid()
      reads this
    {
      input[pos..]
    }

    constructor (input: Bytes)
      ensures Valid() && Rest() == input
    {
      this.input, pos := input, 0;
    }

    method ReadByte() returns (r: Option<byte>)
      requires Valid()
      modifies this
      ensures Valid()
      ensures old(Rest()) == [] ==> r == None && Rest() == []
      ensures old(Rest()) != [] ==> r == Some(old(Rest())[0]) && Rest() == old(Rest())[1..]
    {
      if pos == |input| { return None; }
      r := Some(input[pos]);
      pos := pos + 1;
    }

    /** Reads through the first line feed; without one, everything is consumed and lost. */
    method ReadThroughLf() returns (r: Option<Bytes>)
      requires Valid()
      modifies this
      ensures Valid()
      ensures var b, at := old(Rest()), FindLf(old(Rest()), 0);
        if at < 0 then r == None && Rest() == [] else r == Some(b[..at + 1]) && Rest() == b[at + 1..]
    {
      ghost var b := Rest();
      var start := pos;
      while pos < |input| && input[pos] != LF
        invariant start <= pos <= |input|
        invariant FindLf(b, 0) == FindLf(b, pos - start)
      {
        pos := pos + 1;
      }
      if pos == |input| { return None; }
      pos := pos + 1;
      r := Some(input[start..pos]);
      assert input[start..pos] == b[..pos - start] && input[pos..] == b[pos - start..];
    }

    /** Reads exactly n bytes, or consumes whatever is left. */
    method ReadFull(n: nat) returns (r: Option<Bytes>, e: Error)
      requires Valid()
      modifies this
      ensures Valid()
      ensures |old(Rest())| >= n ==> r == Some(old(Rest())[..n]) && Rest() == old(Rest())[n..]
      ensures |old(Rest())| < n ==> r == None && Rest() == [] && e == if old(Rest()) == [] then Eof else UnexpectedEof
    {
      e := if pos == |input| then Eof else UnexpectedEof;
      if |input| - pos < n {
        pos := |input|;
        return None, e;
      }
      ghost var b := Rest();
      r := Some(input[pos..pos + n]);
      assert input[pos..pos + n] == b[..n] && input[pos + n..] == b[n..];
      pos := pos + n;
    }

    method ReadLine() returns (p: Parsed<Bytes>)
      requires Valid()
      modifies this
      ensures Valid() && p == ParseLine(old(Rest())) && p.rest == Rest()
    {
      ghost var b := Rest();
      var got := ReadThroughLf();
      if got == None { return Failed(Eof, []); }
      var line := got.value[..|got.value| - 1];
      assert line == b[..FindLf(b, 0)];
      if line != [] && line[|line| - 1] == CR { line := line[..|line| - 1]; }
      p := Done(line, input[pos..]);
    }

    method ReadBulk() returns (p: Parsed<Bytes>)
      requires Valid()
      modifies this
      ensures Valid() && p == ParseBulk(old(Rest())) && p.rest == Rest()
    {
      p := ReadLine();
      if p.Failed? { return; }
      var length := Atoi(p.value);
      if length == None { return Failed(Protocol, p.rest); }
      var n := length.value;
      if n < 0 { return Done([], p.rest); }
      if n + 2 > MAX_BUFFER { return Failed(TooLarge, p.rest); }
      ghost var b := Rest();
      var buf, e := ReadFull(n + 2);
      if buf == None { return Failed(e, []); }
      if buf.value[n] != CR || buf.value[n + 1] != LF { return Failed(Protocol, input[pos..]); }
      p := Done(buf.value[..n], input[pos..]);
      assert buf.value[..n] == b[..n];
    }

    method ReadString() returns (p: Parsed<Bytes>)
      requires Valid()
      modifies this
      ensures Valid() && p == ParseString(old(Rest())) && p.rest == Rest()
    {
      var prefix := ReadByte();
      if prefix == None { return Failed(Eof, []); }
      if prefix.value == DOLLAR {
        p := ReadBulk();
      } else if prefix.value == PLUS || prefix.value == COLON {
        p := ReadLine();
      } else {
        p := Failed(Protocol, input[pos..]);
      }
    }

    /** The next of the n strings that are still to be read after `args`. */
    method ReadNextOf(ghost parse: Bytes -> Parsed<Bytes>, ghost goal: Parsed<seq<Bytes>>, ghost args: seq<Bytes>, ghost n: nat)
      returns (p: Parsed<Bytes>)
      requires Valid() && n > 0 && goal == ParseOnto(parse, args, Rest(), n) && IsParseString(parse)
      modifies this
      ensures Valid() && p.rest == Rest()
      ensures p.Failed? ==> goal == Failed(p.error, p.rest)
      ensures p.Done? ==> goal == ParseOnto(parse, args + [p.value], Rest(), n - 1)
    {
      ghost var b := Rest();
      p := ReadString();
      assert p == ParseString(b) == parse(b);
    }

    method ReadAll(n: nat, ghost parse: Bytes -> Parsed<Bytes>) returns (p: Parsed<seq<Bytes>>)
      requires Valid() && IsParseString(parse)
      modifies this
      ensures Valid() && p == ParseMany(parse, old(Rest()), n) && p.rest == Rest()
    {
      ghost var goal := ParseMany(parse, Rest(), n);
      ParseFromStart(parse, Rest(), n);
      var args: seq<Bytes> := [];
      var i := 0;
      while i < n
        invariant i <= n && Valid() && goal == ParseOnto(parse, args, Rest(), n - i)
      {
        var next := ReadNextOf(parse, goal, args, n - i);
        if next.Failed? { return Failed(next.error, next.rest); }
        args := args + [next.value];
        i := i + 1;
      }
      p := Done(args, input[pos..]);
    }

    method ReadStrings(n: nat) returns (p: Parsed<seq<Bytes>>)
      requires Valid()
      modifies this
      ensures Valid() && p == ParseStrings(old(Rest()), n) && p.rest == Rest()
    {
      p := ReadAll(n, ParseString);
    }

    /** Reads one command. */
    method ReadArray() returns (p: Parsed<seq<Bytes>>)
      requires Valid()
      modifies this
      ensures Valid() && p == ParseArray(old(Rest())) && p.rest == Rest()
    {
      var prefix := ReadByte();
      if prefix == None { return Failed(Eof, []); }
      if prefix.value != STAR { return Failed(Protocol, input[pos..]); }
      var line := ReadLine();
      if line.Failed? { return Failed(line.error, line.rest); }
      var count := Atoi(line.value);
      if count == None || count.value < 0 { return Failed(Protocol, line.rest); }
      if count.value > MAX_STRINGS { return Failed(TooLarge, line.rest); }
      p := ReadStrings(count.value);
    }

    method ReadHomePayload(text: Bytes) returns (r: HomeReply)
      requires Valid()
      modifies this
      ensures Valid() && r == ParseHomePayload(text, old(Rest())) && r.rest == Rest()
    {
      ghost var b := Rest();
      var size := Atoi(text);
      if size == None { return NoPayload(BadSize, input[pos..]); }
      if size.value < 0 { return NoPayload(NilReply, input[pos..]); }
      if size.value + 2 > MAX_BUFFER { return NoPayload(Io(TooLarge), input[pos..]); }
      var payload, e := ReadFull(size.value + 2);
      if payload == None { return NoPayload(Io(e), []); }
      r := Payload(payload.value[..size.value], input[pos..]);
      assert payload.value[..size.value] == b[..size.value];
    }

    /** Reads one bulk reply from Home. */
    method ReadHomeBulk() returns (r: HomeReply)
      requires Valid()
      modifies this
      ensures Valid() && r == ParseHomeBulk(old(Rest())) && r.rest == Rest()
    {
      ghost var b := Rest();
      var prefix := ReadByte();
      if prefix == None { return NoPayload(Io(Eof), []); }
      if prefix.value != DOLLAR && prefix.value != MINUS { return NoPayload(BadPrefix(prefix.value), input[pos..]); }
      FindLfShift(b);
      var line := ReadThroughLf();
      if line == None { return NoPayload(Io(Eof), []); }
      var text := Trim(line.value);
      if prefix.value == MINUS { return NoPayload(Remote(text), input[pos..]); }
      r := ReadHomePayload(text);
    }
  }

  lemma {:induction false} FindLfFrom(b: Bytes, i: nat)
    requires 1 <= i <= |b|
    ensures FindLf(b, i) == if FindLf(b[1..], i - 1) < 0 then -1 else FindLf(b[1..], i - 1) + 1
    decreases |b| - i
  {
    if i < |b| && b[i] != LF { FindLfFrom(b, i + 1); }
  }

  lemma FindLfShift(b: Bytes)
    ensures b != [] ==> FindLf(b, 1) == if FindLf(b[1..], 0) < 0 then -1 else FindLf(b[1..], 0) + 1
    ensures b != [] && FindLf(b, 1) >= 0 ==>
      b[1..][..FindLf(b[1..], 0) + 1] == b[1..FindLf(b, 1) + 1] && b[1..][FindLf(b[1..], 0) + 1..] == b[FindLf(b, 1) + 1..]
  {
    if b != [] { FindLfFrom(b, 1); }
  }

  /** An output buffer whose writes all succeed. */
  class Writer {
    var out: Bytes

    constructor ()
      ensures out == []
    {
      out := [];
    }

    method Write(b: Bytes)
      modifies this
      ensures out == old(out) + b
    {
      out := out + b;
    }

    method WriteSimpleString(value: Bytes)
      modifies this
      ensures out == old(out) + ([PLUS] + value + CRLF)
    {
      Write([PLUS] + value + CRLF);
    }

    method WriteError(message: Bytes)
      modifies this
      ensures out == old(out) + ([MINUS] + message + CRLF)
    {
      Write([MINUS] + message + CRLF);
    }

    method WriteField(f: Field)
      modifies this
      ensures out == old(out) + EncodeField(f)
    {
      match f
      case Null =>
        Write([DOLLAR] + Itoa(-1) + CRLF);
      case Bulk(payload) =>
        Write([DOLLAR] + Itoa(|payload|) + CRLF);
        Write(payload);
        Write(CRLF);
      case Integer(n) =>
        Write([COLON] + Itoa(n) + CRLF);
    }

    method WriteArrayHeader(count: nat)
      modifies this
      ensures out == old(out) + ([STAR] + Itoa(count) + CRLF)
    {
      Write([STAR] + Itoa(count) + CRLF);
    }

    method WriteArray(items: seq<Field>)
      modifies this
      ensures out == old(out) + EncodeFrame(items)
    {
      WriteArrayHeader(|items|);
      ghost var head, parts := out, Encoded(items);
      var i := 0;
      while i < |items|
        invariant i <= |items| && out == head + Concat(parts[..i])
      {
        ghost var before := out;
        WriteField(items[i]);
        ConcatStep(head, parts, i, before, out);
        i := i + 1;
      }
      assert parts[..i] == parts;
    }

    method WriteSubscribe(channel: Bytes, count: int)
      modifies this
      ensures out == old(out) + EncodeFrame([Bulk(Ascii("subscribe")), Bulk(channel), Integer(count)])
    {
      WriteThree(Bulk(Ascii("subscribe")), Bulk(channel), Integer(count));
    }

    method WriteUnsubscribe(channel: Bytes, count: int)
      modifies this
      ensures out == old(out) + EncodeFrame([Bulk(Ascii("unsubscribe")), Bulk(channel), Integer(count)])
    {
      WriteThree(Bulk(Ascii("unsubscribe")), Bulk(channel), Integer(count));
    }

    method WriteMessage(channel: Bytes, payload: Field)
      modifies this
      ensures out == old(out) + EncodeFrame([Bulk(Ascii("message")), Bulk(channel), payload])
    {
      WriteThree(Bulk(Ascii("message")), Bulk(channel), payload);
    }

    method WriteThree(a: Field, b: Field, c: Field)
      modifies this
      ensures out == old(out) + EncodeFrame([a, b, c])
    {
      WriteArrayHeader(3);
      WriteTwo(a, b);
      WriteField(c);
      FrameOfThree(old(out), a, b, c);
    }

    method WriteTwo(a: Field, b: Field)
      modifies this
      ensures out == old(out) + EncodeField(a) + EncodeField(b)
    {
      WriteField(a);
      WriteField(b);
    }

    method WritePong(payload: Field)
      modifies this
      ensures out == old(out) + EncodeFrame([Bulk(Ascii("pong")), payload])
    {
      WriteArrayHeader(2);
      WriteTwo(Bulk(Ascii("pong")), payload);
      FrameOfTwo(old(out), Bulk(Ascii("pong")), payload);
    }
  }

  lemma FrameOfTwo(was: Bytes, a: Field, b: Field)
    ensures was + ([STAR] + Itoa(2) + CRLF) + EncodeField(a) + EncodeField(b) == was + EncodeFrame([a, b])
  {
    var head := [STAR] + Itoa(2) + CRLF;
    var x, y := EncodeField(a), EncodeField(b);
    ConcatTwo(x, y);
    assert Encoded([a, b]) == [x, y];
    Regroup(was, head, x, y);
  }

  lemma FrameOfThree(was: Bytes, a: Field, b: Field, c: Field)
    ensures was + ([STAR] + Itoa(3) + CRLF) + EncodeField(a) + EncodeField(b) + EncodeField(c) == was + EncodeFrame([a, b, c])
  {
    var head := [STAR] + Itoa(3) + CRLF;
    var x, y, z := EncodeField(a), EncodeField(b), EncodeField(c);
    ConcatThree(x, y, z);
    assert Encoded([a, b, c]) == [x, y, z];
    Regroup(was, head, x, y + z);
    Associative(was + head + x, y, z);
  }

  lemma ConcatTwo(x: Bytes, y: Bytes)
    ensures Concat([x, y]) == x + y
  {
    assert [x, y][1..] == [y] && [y][1..] == [];
    assert Concat([y]) == y + Concat([]) == y;
  }

  lemma ConcatThree(x: Bytes, y: Bytes, z: Bytes)
    ensures Concat([x, y, z]) == x + (y + z)
  {
    assert [x, y, z][1..] == [y, z];
    ConcatTwo(y, z);
  }

  lemma Regroup(a: Bytes, b: Bytes, c: Bytes, d: Bytes)
    ensures a + b + c + d == a + (b + (c + d))
  {
  }

  /** Home's own encoder: it appends to a buffer of its own. */
  method EncodeArray(args: seq<Bytes>) returns (buf: Bytes)
    ensures buf == EncodeCommand(args)
  {
    buf := [STAR];
    buf := buf + Itoa(|args|);
    buf := buf + CRLF;
    ghost var head, parts := buf, Encoded(Fields(args));
    var i := 0;
    while i < |args|
      invariant i <= |args| && buf == head + Concat(parts[..i])
    {
      ghost var before := buf;
      buf := AppendBulk(buf, args[i]);
      ConcatStep(head, parts, i, before, buf);
      i := i + 1;
    }
    assert parts[..i] == parts;
  }

  method AppendBulk(buf: Bytes, arg: Bytes) returns (r: Bytes)
    ensures r == buf + EncodeBulk(arg)
  {
    r := buf + [DOLLAR];
    r := r + Itoa(|arg|);
    r := r + CRLF;
    r := r + arg;
    r := r + CRLF;
  }
}

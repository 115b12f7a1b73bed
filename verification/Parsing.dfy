/** Parsers on byte streams, and what repeating one of them keeps. */
module Parsing {
  import opened Base

  /** `TooLarge` is an announced size for which no buffer can be made: the program panics there. */
  datatype Error = Eof | UnexpectedEof | Protocol | TooLarge

  /** An error that no further input would have prevented. */
  predicate Final(e: Error) {
    e == Protocol || e == TooLarge
  }

  /** A value and the bytes after it, or an error and the bytes left over. */
  datatype Parsed<+T> = Done(value: T, rest: Bytes) | Failed(error: Error, rest: Bytes)

  /** Runs the parser n times in a row. */
  function ParseMany<T>(parse: Bytes -> Parsed<T>, b: Bytes, n: nat): Parsed<seq<T>>
    decreases n
  {
    if n == 0 then Done([], b)
    else match parse(b)
      case Failed(e, rest) => Failed(e, rest)
      case Done(first, rest) =>
        match ParseMany(parse, rest, n - 1)
        case Failed(e, rest') => Failed(e, rest')
        case Done(others, rest') => Done([first] + others, rest')
  }

  // ----------------------------------------------------------------- concatenation

  function Concat(parts: seq<Bytes>): Bytes {
    if parts == [] then [] else parts[0] + Concat(parts[1..])
  }

  lemma Associative(a: Bytes, b: Bytes, c: Bytes)
    ensures (a + b) + c == a + (b + c)
  {
  }

  lemma {:induction false} ConcatPush(parts: seq<Bytes>, p: Bytes)
    ensures Concat(parts + [p]) == Concat(parts) + p
  {
    if parts == [] {
      assert [p][1..] == [] && p + [] == p && [] + p == p && [] + [p] == [p];
    } else {
      ConcatPush(parts[1..], p);
      assert (parts + [p])[1..] == parts[1..] + [p];
      Associative(parts[0], Concat(parts[1..]), p);
    }
  }

  /** One more part written after the first i. */
  lemma ConcatStep(head: Bytes, parts: seq<Bytes>, i: nat, before: Bytes, after: Bytes)
    requires i < |parts| && before == head + Concat(parts[..i]) && after == before + parts[i]
    ensures after == head + Concat(parts[..i + 1])
  {
    assert parts[..i + 1] == parts[..i] + [parts[i]];
    ConcatPush(parts[..i], parts[i]);
    Associative(head, Concat(parts[..i]), parts[i]);
  }

  // --------------------------------------------------------------------- round trips

  /** Whatever follows `part`, the parser takes exactly `part` and returns `value`. */
  ghost predicate ReadsAs<T>(parse: Bytes -> Parsed<T>, part: Bytes, value: T) {
    forall rest :: parse(part + rest) == Done(value, rest)
  }

  /** Parts that each read back do so in a row. */
  lemma {:induction false} ManyReadBack<T>(parse: Bytes -> Parsed<T>, parts: seq<Bytes>, values: seq<T>, rest: Bytes)
    requires |parts| == |values| && forall i | 0 <= i < |parts| :: ReadsAs(parse, parts[i], values[i])
    ensures ParseMany(parse, Concat(parts) + rest, |parts|) == Done(values, rest)
  {
    if parts == [] {
      assert Concat(parts) + rest == rest;
    } else {
      var tail := Concat(parts[1..]) + rest;
      Associative(parts[0], Concat(parts[1..]), rest);
      assert ReadsAs(parse, parts[0], values[0]);
      assert parse(parts[0] + tail) == Done(values[0], tail);
      ManyReadBack(parse, parts[1..], values[1..], rest);
      assert values == [values[0]] + values[1..];
    }
  }

  /** Whatever follows `part`, the parser does not return `value`. */
  ghost predicate Misreads<T(!new)>(parse: Bytes -> Parsed<T>, part: Bytes, value: T) {
    forall rest :: !(parse(part + rest).Done? && parse(part + rest).value == value)
  }

  /** Parts in a row read back as their values only if each of them does. */
  lemma {:induction false} ManyReadBackOnlyIf<T(!new)>(parse: Bytes -> Parsed<T>, parts: seq<Bytes>, values: seq<T>, rest: Bytes)
    requires |parts| == |values|
    requires forall i | 0 <= i < |parts| :: ReadsAs(parse, parts[i], values[i]) || Misreads(parse, parts[i], values[i])
    requires ParseMany(parse, Concat(parts) + rest, |parts|) == Done(values, rest)
    ensures forall i | 0 <= i < |parts| :: ReadsAs(parse, parts[i], values[i])
  {
    if parts != [] {
      var tail := Concat(parts[1..]) + rest;
      Associative(parts[0], Concat(parts[1..]), rest);
      var p := parse(parts[0] + tail);
      var q := ParseMany(parse, p.rest, |parts| - 1);
      assert [p.value] + q.value == values;
      assert p.value == values[0] && q.value == values[1..];
      assert ReadsAs(parse, parts[0], values[0]);
      ManyReadBackOnlyIf(parse, parts[1..], values[1..], rest);
      forall i | 0 <= i < |parts|
        ensures ReadsAs(parse, parts[i], values[i])
      {
        if i > 0 { assert ReadsAs(parse, parts[1..][i - 1], values[1..][i - 1]); }
      }
    }
  }

  /** As many values as were asked for. */
  lemma {:induction false} ManyCount<T>(parse: Bytes -> Parsed<T>, b: Bytes, n: nat)
    ensures ParseMany(parse, b, n).Done? ==> |ParseMany(parse, b, n).value| == n
    decreases n
  {
    if n > 0 && parse(b).Done? { ManyCount(parse, parse(b).rest, n - 1); }
  }

  // ------------------------------------------------------------------------ shrinking

  ghost predicate Shrinks<T>(parse: Bytes -> Parsed<T>) {
    forall b :: |parse(b).rest| <= |b|
  }

  lemma {:induction false} ManyShrink<T>(parse: Bytes -> Parsed<T>, b: Bytes, n: nat)
    requires Shrinks(parse)
    ensures |ParseMany(parse, b, n).rest| <= |b|
    decreases n
  {
    if n > 0 {
      assert |parse(b).rest| <= |b|;
      if parse(b).Done? { ManyShrink(parse, parse(b).rest, n - 1); }
    }
  }

  // ------------------------------------------------------------------------ more input

  /** More input never changes a result that was not for lack of input. */
  ghost predicate Extends<T(!new)>(p: Parsed<T>, q: Parsed<T>, more: Bytes) {
    && (p.Done? ==> q == Done(p.value, p.rest + more))
    && (p.Failed? && Final(p.error) ==> q.Failed? && q.error == p.error)
  }

  ghost predicate Extensible<T(!new)>(parse: Bytes -> Parsed<T>, more: Bytes) {
    forall b :: Extends(parse(b), parse(b + more), more)
  }

  lemma {:induction false} ManyExtend<T(!new)>(parse: Bytes -> Parsed<T>, b: Bytes, n: nat, more: Bytes)
    requires Extensible(parse, more)
    ensures Extends(ParseMany(parse, b, n), ParseMany(parse, b + more, n), more)
    decreases n
  {
    if n > 0 {
      assert Extends(parse(b), parse(b + more), more);
      if parse(b).Done? { ManyExtend(parse, parse(b).rest, n - 1, more); }
    }
  }

  // ---------------------------------------------------------------------- loops

  /** Runs the parser n more times onto the values read before. */
  function ParseOnto<T>(parse: Bytes -> Parsed<T>, before: seq<T>, b: Bytes, n: nat): Parsed<seq<T>>
    decreases n
  {
    if n == 0 then Done(before, b)
    else match parse(b)
      case Failed(e, rest) => Failed(e, rest)
      case Done(next, rest) => ParseOnto(parse, before + [next], rest, n - 1)
  }

  function Prepend<T>(before: seq<T>, p: Parsed<seq<T>>): Parsed<seq<T>> {
    match p
    case Done(values, rest) => Done(before + values, rest)
    case Failed(_, _) => p
  }

  lemma PrependOne<T>(before: seq<T>, first: T, p: Parsed<seq<T>>)
    ensures Prepend(before + [first], p) == Prepend(before, Prepend([first], p))
  {
    if p.Done? { MoveOne(before, first, p.value); }
  }

  lemma {:induction false} ParseOntoPrepends<T>(parse: Bytes -> Parsed<T>, before: seq<T>, b: Bytes, n: nat)
    ensures ParseOnto(parse, before, b, n) == Prepend(before, ParseMany(parse, b, n))
    decreases n
  {
    if n == 0 {
      assert before + [] == before;
    } else {
      var p := parse(b);
      if p.Done? {
        ParseOntoPrepends(parse, before + [p.value], p.rest, n - 1);
        PrependOne(before, p.value, ParseMany(parse, p.rest, n - 1));
      }
    }
  }

  /** The loop that collects values computes what the repetition says. */
  lemma ParseFromStart<T>(parse: Bytes -> Parsed<T>, b: Bytes, n: nat)
    ensures ParseOnto(parse, [], b, n) == ParseMany(parse, b, n)
  {
    ParseOntoPrepends(parse, [], b, n);
    var p := ParseMany(parse, b, n);
    if p.Done? { assert [] + p.value == p.value; }
  }
}

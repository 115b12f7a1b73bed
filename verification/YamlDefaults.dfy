/**
 What counts as a default when a new key is written: the meaning of a scalar,
 the settings named by their path, and what follows for whole documents.
 */
module YamlDefaults {
  import opened YamlTree
  import opened YamlMerge
  import opened YamlMeaning
  import opened YamlShape
  import opened YamlReading

  // -------------------------------------------------------------- meaning of a scalar

  /**
   What a reader makes of a scalar. `Number` holds the digits of a number in
   decimal notation without its sign and its point, so it is zero exactly when
   the number is. `Other` are all other notations and tags.
   */
  datatype Meaning = Truth(value: bool) | Number(digits: nat) | Words(text: string) | Nothing | Other

  predicate IsDigit(c: char) {
    '0' <= c <= '9'
  }

  /** Digits with at most one point among them. */
  predicate IsDecimal(text: string) {
    && (exists i | 0 <= i < |text| :: IsDigit(text[i]))
    && (forall i | 0 <= i < |text| :: IsDigit(text[i]) || text[i] == '.')
    && (forall i, j | 0 <= i < j < |text| :: !(text[i] == '.' && text[j] == '.'))
  }

  function DigitValue(text: string): nat
    requires forall i | 0 <= i < |text| :: IsDigit(text[i]) || text[i] == '.'
  {
    if text == "" then 0
    else
      var n, c := DigitValue(text[..|text| - 1]), text[|text| - 1];
      assert IsDigit(c) || c == '.';
      if c == '.' then n else 10 * n + (c as int - '0' as int)
  }

  function Unsigned(text: string): string {
    if text != "" && (text[0] == '-' || text[0] == '+') then text[1..] else text
  }

  function MeaningOf(tag: string, text: string): Meaning {
    match tag
    case "!!bool" =>
      if text == "true" || text == "True" || text == "TRUE" then Truth(true)
      else if text == "false" || text == "False" || text == "FALSE" then Truth(false)
      else Other
    case "!!int" => if IsDecimal(Unsigned(text)) then Number(DigitValue(Unsigned(text))) else Other
    case "!!float" => if IsDecimal(Unsigned(text)) then Number(DigitValue(Unsigned(text))) else Other
    case "!!str" => Words(text)
    case "!!null" => Nothing
    case _ => Other
  }

  /** The zero of its type. */
  predicate MeansZero(m: Meaning) {
    match m
    case Truth(value) => !value
    case Number(digits) => digits == 0
    case Words(text) => text == ""
    case Nothing => true
    case Other => false
  }

  /** A number without sign and superfluous zeros, or a truth value in lower case: what the encoder writes. */
  predicate IsPlain(tag: string, text: string) {
    match tag
    case "!!bool" => text == "true" || text == "false"
    case "!!int" => IsPlainNumber(text)
    case "!!float" => IsPlainNumber(text)
    case _ => true
  }

  predicate IsPlainNumber(text: string) {
    && text != "" && IsDigit(text[0]) && IsDigit(text[|text| - 1])
    && (text[0] == '0' && |text| > 1 ==> text[1] == '.')
    && (text[|text| - 1] == '0' && '.' in text ==> text[|text| - 2] == '.')
  }

  function Decimal(n: nat): string {
    if n < 10 then ['0' + n as char] else Decimal(n / 10) + ['0' + (n % 10) as char]
  }

  /** The decimal text of a number means that number. */
  lemma {:induction false} DecimalMeans(n: nat)
    ensures forall i | 0 <= i < |Decimal(n)| :: IsDigit(Decimal(n)[i])
    ensures Decimal(n) != "" && DigitValue(Decimal(n)) == n
  {
    if n >= 10 {
      DecimalMeans(n / 10);
      assert Decimal(n)[..|Decimal(n)| - 1] == Decimal(n / 10);
    } else {
      assert Decimal(n)[..0] == "";
    }
  }

  lemma NumberMeans(n: nat)
    ensures MeaningOf("!!int", Decimal(n)) == Number(n) && MeaningOf("!!int", "-" + Decimal(n)) == Number(n)
  {
    DecimalMeans(n);
    assert IsDigit(Decimal(n)[0]);
    assert ("-" + Decimal(n))[1..] == Decimal(n);
  }

  lemma {:induction false} AllZeros(text: string)
    requires forall i | 0 <= i < |text| :: IsDigit(text[i]) || text[i] == '.'
    ensures DigitValue(text) == 0 <==> forall i | 0 <= i < |text| :: text[i] == '0' || text[i] == '.'
  {
    if text != "" {
      AllZeros(text[..|text| - 1]);
    }
  }

  lemma PlainZero(text: string)
    ensures IsDecimal(Unsigned(text)) && DigitValue(Unsigned(text)) == 0 && IsPlainNumber(text)
            <==> text == "0" || text == "0.0"
  {
    if IsDecimal(Unsigned(text)) && IsPlainNumber(text) {
      assert Unsigned(text) == text;
      AllZeros(text);
      if DigitValue(text) == 0 && |text| > 1 {
        assert text[1] == '.' && text[|text| - 2] == '.';
        assert |text| == 3;
      }
    }
    ZeroIsDecimal();
  }

  lemma ZeroIsDecimal()
    ensures IsDecimal("0") && DigitValue("0") == 0 && IsDecimal("0.0") && DigitValue("0.0") == 0
  {
    AllZeros("0");
    AllZeros("0.0");
    assert IsDigit("0"[0]) && IsDigit("0.0"[0]);
  }

  /** A scalar counts as zero exactly if it means the zero of its type and is written as the encoder writes that. */
  lemma ZeroByMeaning(n: Tree)
    requires IsKind(n, Scalar)
    ensures IsZero(n) <==> MeansZero(MeaningOf(n.tag, n.value)) && IsPlain(n.tag, n.value)
  {
    PlainZero(n.value);
  }

  // ------------------------------------------------------- settings named by their path

  /** The defaults that are not zero: dotted path, tag and text. */
  const DEFAULTS: seq<(string, string, string)> := [
    ("pprof.addr", "!!str", "127.0.0.1:8316"),
    ("routing.strategy", "!!str", "round-robin"),
    ("error-logs-max-files", "!!int", "10"),
    ("claude.session-date-pin-days", "!!int", "7"),
    ("claude-session-date-pin-days", "!!int", "7")]

  predicate NamedDefault(path: Path, n: Tree) {
    n != Nil && (JoinDots(path), n.tag, n.value) in DEFAULTS
  }

  lemma DottedPaths(a: string, b: string)
    ensures JoinDots([a]) == a && JoinDots([a, b]) == a + "." + b
  {
    assert [a, b][1..] == [b];
  }

  /** An explicit value of a setting that is absent by default. */
  predicate Explicit(path: Path, n: Tree) {
    && path != [] && n != Nil
    && match path[|path| - 1]
       case "cache-user-id" => n.tag == "!!bool"
       case "disable-cooling" => n.tag == "!!bool"
       case "session-date-pin-days" => n.tag == "!!int" && n.value == "0"
       case _ => false
  }

  /** The scalar is worth writing: it is explicit, or neither the zero of its type nor a named default. */
  predicate Worth(path: Path, n: Tree)
    requires IsKind(n, Scalar)
  {
    || Explicit(path, n)
    || (!(MeansZero(MeaningOf(n.tag, n.value)) && IsPlain(n.tag, n.value)) && !NamedDefault(path, n))
  }

  lemma KnownByMeaning(path: Path, n: Tree)
    requires IsKind(n, Scalar) && path != []
    ensures IsKnownDefault(path, n) <==> !Worth(path, n)
  {
    ZeroByMeaning(n);
    assert IsNonZeroDefault(path, n) <==> NamedDefault(path, n);
  }

  /**
   Whether a new scalar is written, for every document: exactly if it is worth
   writing, and not blank-named in a pruned mapping. It then reads the same.
   */
  lemma NewScalarIsWrittenIff(d: Tree, s: Tree, path: Path, key: string)
    requires Shaped(d) && IsKind(d, Mapping) && Shaped(s) && UniqueKeys(s) && IsKind(s, Mapping)
    requires FindKey(d, key) < 0 && IsKind(Lookup(s, key), Scalar)
    ensures FindKey(MergeNode(d, s, path), key) >= 0 <==>
      Worth(path + [key], Lookup(s, key)) && !(ShouldPrune(path) && IsBlank(key))
    ensures FindKey(MergeNode(d, s, path), key) >= 0 ==> Lookup(MergeNode(d, s, path), key) == Lookup(s, key)
  {
    var at := FindKey(s, key);
    KnownByMeaning(path + [key], Lookup(s, key));
    KeysAfterMerge(d, s, path, key);
    MergedLookup(d, s, path, false, key);
    assert TrimSpace(key) in KeepSet(s.content) <==> !IsBlank(key);
  }

  /** Nothing in it but the zeros of their types. */
  predicate OnlyZeros(n: Tree) {
    && n != Nil
    && match n.kind
       case Scalar => MeansZero(MeaningOf(n.tag, n.value)) && IsPlain(n.tag, n.value)
       case Sequence => forall i | 0 <= i < |n.content| :: OnlyZeros(n.content[i])
       case Mapping => forall i | 0 <= i < |n.content| && i % 2 == 1 :: OnlyZeros(n.content[i])
       case _ => false
  }

  lemma {:induction false} ZeroOrOnlyZeros(n: Tree)
    requires Shaped(n)
    ensures IsZero(n) <==> OnlyZeros(n)
  {
    if n.kind == Scalar {
      ZeroByMeaning(n);
    } else {
      forall i | 0 <= i < |n.content|
        ensures IsZero(n.content[i]) <==> OnlyZeros(n.content[i])
      {
        ZeroOrOnlyZeros(n.content[i]);
      }
    }
  }

  /** A new collection of nothing but zeros is not written. */
  lemma OnlyZerosAreNotWritten(d: Tree, s: Tree, path: Path, key: string)
    requires Shaped(d) && IsKind(d, Mapping) && Shaped(s) && UniqueKeys(s) && IsKind(s, Mapping)
    requires FindKey(d, key) < 0 && OnlyZeros(Lookup(s, key)) && !IsKind(Lookup(s, key), Scalar)
    ensures FindKey(MergeNode(d, s, path), key) < 0
  {
    var v := Lookup(s, key);
    assert Shaped(v) && UniqueKeys(v);
    ZeroOrOnlyZeros(v);
    PruneKeepsZero(path + [key], v);
    KeysAfterMerge(d, s, path, key);
  }

  // ----------------------------------------------------------------- whole documents

  /** The keys on the way, after those of `path`. */
  function FullPath(path: Path, steps: seq<Step>): Path
    decreases |steps|
  {
    if steps == [] then path
    else FullPath(if steps[0].Key? then path + [steps[0].name] else path, steps[1..])
  }

  predicate NoBlankKey(steps: seq<Step>) {
    forall i | 0 <= i < |steps| && steps[i].Key? :: !IsBlank(steps[i].name)
  }

  /** A scalar that does not mean zero. */
  predicate SaysSomething(n: Tree) {
    IsKind(n, Scalar) && !(MeansZero(MeaningOf(n.tag, n.value)) && IsPlain(n.tag, n.value))
  }

  /** What holds such a scalar is not zero, before or after pruning. */
  lemma {:induction false} NotZeroAbove(path: Path, n: Tree, steps: seq<Step>)
    requires Shaped(n) && UniqueKeys(n) && SaysSomething(ReadAt(n, steps))
    requires !NamedDefault(FullPath(path, steps), ReadAt(n, steps))
    ensures !IsZero(n) && !IsZero(Prune(path, n))
    decreases |steps|
  {
    if steps == [] {
      ZeroByMeaning(n);
    } else {
      NothingBelowNil(steps[1..]);
      match steps[0]
      case Key(name) => NotZeroMapping(path, n, name, steps);
      case Item(i) =>
        assert Shaped(n.content[i]) && UniqueKeys(n.content[i]);
        NotZeroAbove(path, n.content[i], steps[1..]);
        assert Prune(path, n).content[i] == Prune(path, n.content[i]);
    }
  }

  lemma {:induction false} NotZeroMapping(path: Path, n: Tree, name: string, steps: seq<Step>)
    requires Shaped(n) && UniqueKeys(n) && SaysSomething(ReadAt(n, steps)) && steps != [] && steps[0] == Key(name)
    requires !NamedDefault(FullPath(path, steps), ReadAt(n, steps))
    ensures !IsZero(n) && !IsZero(Prune(path, n))
    decreases |steps|, 0
  {
    NothingBelowNil(steps[1..]);
    var at, p := FindKey(n, name), path + [name];
    var v := n.content[at + 1];
    assert Shaped(n.content[at]) && Shaped(v) && UniqueKeys(v);
    NotZeroAbove(p, v, steps[1..]);
    NotADefault(p, v, steps[1..]);
    NotZeroBecause(n, at + 1);
    NotZeroWhenPruned(path, n, at);
  }

  lemma NotZeroWhenPruned(path: Path, n: Tree, at: nat)
    requires Shaped(n) && UniqueKeys(n) && n.kind == Mapping && at % 2 == 0 && at < |n.content| - 1 && Shaped(n.content[at])
    requires var k, v := n.content[at], n.content[at + 1]; v != Nil && !DropsPair(path, k, v) && !IsZero(Prune(path + [k.value], v))
    ensures !IsZero(Prune(path, n))
  {
    var key := n.content[at].value;
    PrunedLookup(path, n, 0, at);
    assert Pruned(path, n, 0) == Prune(path, n);
    NotZeroBecause(Prune(path, n), FindKey(Prune(path, n), key) + 1);
  }

  lemma NotZeroBecause(n: Tree, i: nat)
    requires IsKind(n, Mapping) && i < |n.content| && i % 2 == 1 && !IsZero(n.content[i])
    ensures !IsZero(n)
  {
  }

  lemma NotADefault(p: Path, v: Tree, steps: seq<Step>)
    requires Shaped(v) && SaysSomething(ReadAt(v, steps)) && !NamedDefault(FullPath(p, steps), ReadAt(v, steps))
    requires !IsZero(v) && !IsZero(Prune(p, v)) && p != []
    ensures !IsKnownDefault(p, v) && !IsKnownDefault(p, Prune(p, v)) && !IsEmptyCollection(Prune(p, v))
  {
    if steps == [] {
      KnownByMeaning(p, v);
    } else {
      NothingBelowNil(steps[1..]);
      assert v.kind == Mapping || v.kind == Sequence;
    }
  }

  lemma {:induction false} NeverAbsent(s: Tree, path: Path, exact: bool, steps: seq<Step>)
    requires Shaped(s) && UniqueKeys(s) && SaysSomething(ReadAt(s, steps)) && NoBlankKey(steps)
    requires !NamedDefault(FullPath(path, steps), ReadAt(s, steps))
    ensures !MayBeAbsent(s, path, exact, steps)
    decreases |steps|
  {
    if steps != [] {
      var c, rest := Child(s, steps[0]), steps[1..];
      NothingBelowNil(rest);
      assert NoBlankKey(rest) && Shaped(c) && UniqueKeys(c);
      match steps[0]
      case Key(name) =>
        NotZeroAbove(path + [name], c, rest);
        NotADefault(path + [name], c, rest);
        NeverAbsent(c, path + [name], false, rest);
      case Item(_) => NeverAbsent(c, path, true, rest);
    }
  }

  /**
   Whatever document the generated configuration is merged into, and however
   deep: a scalar that reads true, a number other than zero, a text that is not
   empty, or in any notation of its own, and that is not a default named by its
   path, is there afterwards and reads the same. No key on the way may be blank.
   */
  lemma MeaningfulScalarsSurvive(d: Tree, s: Tree, path: Path, steps: seq<Step>)
    requires Shaped(d) && Shaped(s) && UniqueKeys(s) && NoBlankKey(steps)
    requires SaysSomething(ReadAt(s, steps)) && !NamedDefault(FullPath(path, steps), ReadAt(s, steps))
    ensures SameScalarAt(MergeNode(d, s, path), s, steps)
  {
    MergedScalars(d, s, path, steps);
    NeverAbsent(s, path, false, steps);
  }
}

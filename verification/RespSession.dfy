/** One management connection: commands in, exactly one reply each, and the usage queue behind a login. */
module RespSession {
  import opened Base
  import opened Parsing
  import opened Resp
  import opened RespIo

  /** What the management handler answers when a key is presented. */
  datatype Verdict = Verdict(allowed: bool, banned: bool, message: Bytes)

  datatype Reply =
    | Status(text: Bytes)
    | Fault(message: Bytes)
    | NullBulk
    | One(item: Bytes)
    | Many(items: seq<Bytes>)
    | Subscribed

  function EncodeReply(r: Reply): Bytes {
    match r
    case Status(text) => [PLUS] + text + CRLF
    case Fault(message) => [MINUS] + message + CRLF
    case NullBulk => EncodeField(Null)
    case One(item) => EncodeBulk(item)
    case Many(items) => EncodeCommand(items)
    case Subscribed => EncodeFrame([Bulk(Ascii("subscribe")), Bulk(USAGE), Integer(1)])
  }

  const USAGE: Bytes := Ascii("usage")
  const AUTH: Bytes := Ascii("AUTH")
  const SUBSCRIBE: Bytes := Ascii("SUBSCRIBE")
  const LPOP: Bytes := Ascii("LPOP")
  const RPOP: Bytes := Ascii("RPOP")

  function Upper(b: Bytes): Bytes {
    seq(|b|, i requires 0 <= i < |b| => if 97 <= b[i] <= 122 then b[i] - 32 else b[i])
  }

  function Lower(b: Bytes): Bytes {
    seq(|b|, i requires 0 <= i < |b| => if 65 <= b[i] <= 90 then b[i] + 32 else b[i])
  }

  function CommandName(args: seq<Bytes>): Bytes {
    if args == [] then [] else Upper(Trim(args[0]))
  }

  function ParseAuthPassword(args: seq<Bytes>): Option<Bytes> {
    if |args| == 2 then Some(args[1]) else if |args| == 3 then Some(args[2]) else None
  }

  function ParseSubscribeChannel(args: seq<Bytes>): Option<Bytes> {
    if |args| != 2 then None else Some(Trim(args[1]))
  }

  datatype Count = Count(n: int, given: bool)

  /** How many items to pop. A count that is no number reads as zero, which is refused later. */
  function ParsePopCount(args: seq<Bytes>): Option<Count> {
    if |args| == 2 then Some(Count(1, false))
    else if |args| == 3 then
      match Atoi(Trim(args[2]))
      case Some(n) => Some(Count(n, true))
      case None => Some(Count(0, true))
    else None
  }

  /** The pop a command asks for, if it gets as far as the queue. */
  function PopRequest(authed: bool, args: seq<Bytes>): Option<Count> {
    var cmd := CommandName(args);
    if !authed || args == [] || cmd == AUTH || cmd == SUBSCRIBE || !(cmd == LPOP || cmd == RPOP) then None
    else match ParsePopCount(args)
      case Some(c) => if c.n > 0 then Some(c) else None
      case None => None
  }

  function WrongArguments(cmd: Bytes): Bytes {
    Ascii("ERR wrong number of arguments for '") + Lower(cmd) + Ascii("' command")
  }

  /** The reply to a command that is refused or is not about the queue. */
  function PlainReply(managed: bool, authed: bool, args: seq<Bytes>, v: Verdict): Reply {
    var cmd := CommandName(args);
    if args == [] then Fault(Ascii("ERR empty command"))
    else if cmd != AUTH && !authed then
      Fault(if managed && v.banned then Ascii("ERR ") + v.message else Ascii("NOAUTH Authentication required."))
    else if cmd == AUTH then
      if ParseAuthPassword(args) == None then
        Fault(if managed && v.banned then Ascii("ERR ") + v.message else WrongArguments(AUTH))
      else if !managed then Fault(Ascii("ERR remote management disabled"))
      else if !v.allowed then Fault(Ascii("ERR ") + v.message)
      else Status(Ascii("OK"))
    else if cmd == SUBSCRIBE then
      match ParseSubscribeChannel(args)
      case None => Fault(WrongArguments(SUBSCRIBE))
      case Some(channel) =>
        if Lower(channel) == USAGE then Subscribed
        else Fault(Ascii("ERR unsupported channel '") + channel + Ascii("'"))
    else if cmd == LPOP || cmd == RPOP then
      if ParsePopCount(args) == None then Fault(WrongArguments(cmd))
      else Fault(Ascii("ERR value is not an integer or out of range"))
    else Fault(Ascii("ERR unknown command '") + Lower(cmd) + Ascii("'"))
  }

  /** The reply to a pop: an array when a count was given, else one item or null. */
  function PopReply(c: Count, popped: seq<Bytes>): Reply {
    if c.given then Many(popped) else if popped == [] then NullBulk else One(popped[0])
  }

  /** The replies in ASCII. */
  lemma RepliesOnTheWire(text: Bytes)
    ensures EncodeReply(Status(text)) == Ascii("+") + text + Ascii("\r\n")
    ensures EncodeReply(Fault(text)) == Ascii("-") + text + Ascii("\r\n")
    ensures EncodeReply(One(text)) == Ascii("$") + Itoa(|text|) + Ascii("\r\n") + text + Ascii("\r\n")
    ensures EncodeReply(NullBulk) == Ascii("$") + Itoa(-1) + Ascii("\r\n")
    ensures Itoa(-1) == Ascii("-1")
  {
    Letters();
    DecimalText(1, 1);
  }

  // ---------------------------------------------------------------------- the queue

  /** One pop: the records that had not expired, oldest first, and those of them that were taken. */
  datatype Pop = Pop(queued: seq<Bytes>, taken: seq<Bytes>)

  /** What `expired` records of age leave of the queue. */
  function Unexpired(items: seq<Bytes>, expired: nat): seq<Bytes> {
    if expired < |items| then items[expired..] else []
  }

  /** The first n records, or all if there are fewer. */
  function Oldest(queued: seq<Bytes>, n: nat): seq<Bytes> {
    if n < |queued| then queued[..n] else queued
  }

  /** Usage records, oldest first, that others append to and that expire. */
  class UsageQueue {
    var items: seq<Bytes>
    /** Every pop so far. */
    ghost var pops: seq<Pop>

    constructor (items: seq<Bytes>)
      ensures this.items == items && pops == []
    {
      this.items, pops := items, [];
    }

    /** Records that other requests add and that reach their age limit meanwhile. */
    method Interfere()
      modifies `items
    {
      items := *;
    }

    /** Up to `count` of the oldest records, after `expired` of them ran out. */
    method PopOldest(count: int, expired: nat) returns (out: seq<Bytes>)
      modifies this
      ensures count <= 0 ==> out == [] && items == old(items) && pops == old(pops)
      ensures count > 0 ==>
        && Unexpired(old(items), expired) == out + items && |out| <= count && (|out| < count ==> items == [])
        && out == Oldest(Unexpired(old(items), expired), count)
        && pops == old(pops) + [Pop(Unexpired(old(items), expired), out)]
    {
      out := [];
      if count > 0 {
        items := items[if expired < |items| then expired else |items|..];
        var n := if count > |items| then |items| else count;
        var i := 0;
        while i < n
          invariant i <= n <= |items| && out == items[..i]
        {
          out := out + [items[i]];
          i := i + 1;
        }
        items := items[n..];
        pops := pops + [Pop(Unexpired(old(items), expired), out)];
      }
    }
  }

  // -------------------------------------------------------------------- one command

  /** A command, what was decided about it and what was answered. */
  datatype Turn = Turn(args: seq<Bytes>, verdict: Verdict, before: bool, after: bool, popped: Option<Pop>, reply: Reply)

  /** The turn follows the rules of the command loop. */
  predicate Lawful(managed: bool, t: Turn) {
    match PopRequest(t.before, t.args)
    case Some(c) =>
      && t.popped.Some? && t.popped.value.taken == Oldest(t.popped.value.queued, c.n)
      && t.reply == PopReply(c, t.popped.value.taken) && t.after == t.before
    case None =>
      && t.popped == None && t.reply == PlainReply(managed, t.before, t.args, t.verdict)
      && (t.after <==> t.before || t.reply == Status(Ascii("OK")))
  }

  predicate Follows(turns: seq<Turn>, i: nat)
    requires i < |turns|
  {
    turns[i].before == (i > 0 && turns[i - 1].after)
  }

  /** Turns from a fresh connection on: each starts with the login state the last one left. */
  ghost predicate Conversation(managed: bool, turns: seq<Turn>) {
    && (forall i | 0 <= i < |turns| :: Lawful(managed, turns[i]))
    && (forall i | 0 <= i < |turns| :: Follows(turns, i))
  }

  /** A login: `AUTH` with a password that the management handler allowed. */
  predicate Granted(managed: bool, t: Turn) {
    managed && CommandName(t.args) == AUTH && ParseAuthPassword(t.args).Some? && t.verdict.allowed
  }

  function Popped(turns: seq<Turn>): seq<Pop> {
    if turns == [] then []
    else
      var last := turns[|turns| - 1];
      Popped(turns[..|turns| - 1]) + if last.popped.Some? then [last.popped.value] else []
  }

  function Replies(turns: seq<Turn>): seq<Bytes> {
    seq(|turns|, i requires 0 <= i < |turns| => EncodeReply(turns[i].reply))
  }

  function Commands(turns: seq<Turn>): seq<seq<Bytes>> {
    seq(|turns|, i requires 0 <= i < |turns| => turns[i].args)
  }

  /** The queue items that a reply hands out. */
  function ItemsOf(r: Reply): seq<Bytes> {
    match r
    case One(item) => [item]
    case Many(items) => items
    case _ => []
  }

  // ------------------------------------------------------------------ the discipline

  lemma LoginIsGrant(managed: bool, t: Turn)
    requires Lawful(managed, t)
    ensures t.after <==> t.before || Granted(managed, t)
  {
    CommandWordsDiffer();
  }

  /** A connection is logged in exactly from the first allowed `AUTH` on. */
  lemma {:induction false} LoggedInIffGranted(managed: bool, turns: seq<Turn>, i: nat)
    requires Conversation(managed, turns) && i < |turns|
    ensures turns[i].before <==> exists j | 0 <= j < i :: Granted(managed, turns[j])
  {
    assert Follows(turns, i);
    if i > 0 {
      assert Lawful(managed, turns[i - 1]);
      LoginIsGrant(managed, turns[i - 1]);
      LoggedInIffGranted(managed, turns, i - 1);
    }
  }

  /**
   The queue is touched only after a successful login on the same connection,
   and what a reply hands out is exactly what was popped for it, in pop order.
   */
  lemma QueueDiscipline(managed: bool, turns: seq<Turn>, i: nat)
    requires Conversation(managed, turns) && i < |turns|
    ensures turns[i].popped.Some? ==> exists j | 0 <= j < i :: Granted(managed, turns[j])
    ensures ItemsOf(turns[i].reply) == if turns[i].popped.Some? then turns[i].popped.value.taken else []
  {
    if turns[i].popped.Some? { LoggedInIffGranted(managed, turns, i); }
  }

  /**
   In every conversation a pop takes exactly as many of the oldest unexpired
   records as the command says, or all there are: one without a count, and the
   decimal value of the count otherwise. Any other count, and any other number
   of arguments, is refused and takes nothing.
   */
  lemma PopsWhatIsAsked(managed: bool, turns: seq<Turn>, i: nat, n: int)
    requires Conversation(managed, turns) && i < |turns| && turns[i].before && turns[i].args != []
    requires CommandName(turns[i].args) == Ascii("LPOP") || CommandName(turns[i].args) == Ascii("RPOP")
    ensures var t := turns[i];
      && (|t.args| == 2 ==>
            && t.popped.Some?
            && var (queued, taken) := (t.popped.value.queued, t.popped.value.taken);
            if queued == [] then taken == [] && t.reply == NullBulk
            else taken == [queued[0]] && t.reply == One(queued[0]))
      && (|t.args| == 3 && IsInt(n) && Trim(t.args[2]) == Itoa(n) && n > 0 ==>
            && t.popped.Some?
            && var (queued, taken) := (t.popped.value.queued, t.popped.value.taken);
            && t.reply == Many(taken)
            && taken == if n < |queued| then queued[..n] else queued)
      && (|t.args| == 3 && IsInt(n) && Trim(t.args[2]) == Itoa(n) && n <= 0 ==>
            t.popped == None && t.reply == Fault(Ascii("ERR value is not an integer or out of range")))
      && (|t.args| != 2 && |t.args| != 3 ==> t.popped == None && t.reply.Fault?)
  {
    CommandWordsDiffer();
    assert Lawful(managed, turns[i]);
    if IsInt(n) { AtoiOfItoa(n); }
  }

  /**
   Which turns are granted, subscribe and reach the queue; every other turn is
   answered with an error.
   */
  lemma OutcomeOfTurn(managed: bool, turns: seq<Turn>, i: nat)
    requires Conversation(managed, turns) && i < |turns|
    ensures var t := turns[i];
      var word := CommandName(t.args);
      var pops := t.before && t.popped.Some? && (word == Ascii("LPOP") || word == Ascii("RPOP"));
      && (t.reply == Status(Ascii("OK")) <==> Granted(managed, t))
      && (t.reply == Subscribed <==>
            t.before && word == Ascii("SUBSCRIBE") && |t.args| == 2 && Lower(Trim(t.args[1])) == Ascii("usage"))
      && (t.reply.NullBulk? || t.reply.One? || t.reply.Many? <==> pops)
      && (t.reply.Fault? || t.reply == Status(Ascii("OK")) || t.reply == Subscribed || pops)
  {
    CommandWordsDiffer();
    assert Lawful(managed, turns[i]);
  }

  lemma CommandWordsDiffer()
    ensures LPOP != AUTH && LPOP != SUBSCRIBE && RPOP != AUTH && RPOP != SUBSCRIBE && AUTH != SUBSCRIBE
  {
    assert LPOP[0] == 76 && RPOP[0] == 82 && AUTH[0] == 65 && SUBSCRIBE[0] == 83;
  }

  /** Command words are read without regard to case and to white space around them. */
  lemma CommandWordIsFolded(left: Bytes, word: Bytes, right: Bytes)
    requires word != [] && forall i | 0 <= i < |word| :: 'A' as int <= word[i] as int <= 'Z' as int
    requires AllSpace(left) && AllSpace(right)
    ensures CommandName([left + word + right]) == CommandName([left + Lower(word) + right]) == word
  {
    TrimPadded(left, word, right);
    TrimPadded(left, Lower(word), right);
    assert Upper(word) == word && Upper(Lower(word)) == word;
  }

  // ------------------------------------------------------------------ reading replies back

  /** What a client can tell about one reply. */
  datatype Answer = Line(prefix: byte, text: Bytes) | Value(text: Bytes) | List(items: seq<Bytes>)

  /** A client's reader for one reply. */
  function ParseReply(b: Bytes): Parsed<Answer> {
    if b == [] then Failed(Eof, [])
    else if b[0] == PLUS || b[0] == MINUS then
      match ParseLine(b[1..])
      case Done(text, rest) => Done(Line(b[0], text), rest)
      case Failed(e, rest) => Failed(e, rest)
    else if b[0] == DOLLAR then
      match ParseBulk(b[1..])
      case Done(text, rest) => Done(Value(text), rest)
      case Failed(e, rest) => Failed(e, rest)
    else
      match ParseArray(b)
      case Done(items, rest) => Done(List(items), rest)
      case Failed(e, rest) => Failed(e, rest)
  }

  function AnswerTo(r: Reply): Answer {
    match r
    case Status(text) => Line(PLUS, text)
    case Fault(message) => Line(MINUS, message)
    case NullBulk => Value([])
    case One(item) => Value(item)
    case Many(items) => List(items)
    case Subscribed => List([Ascii("subscribe"), USAGE, Itoa(1)])
  }

  /** The reply is one line, if it is a line at all. */
  predicate OneLine(r: Reply) {
    match r
    case Status(text) => LF !in text
    case Fault(message) => LF !in message
    case _ => true
  }

  /** The queue items of the reply are of a size a reader makes room for. */
  ghost predicate ItemsFit(r: Reply) {
    match r
    case One(item) => |item| + 2 <= MAX_BUFFER
    case Many(items) => CommandFits(items)
    case _ => true
  }

  /** The part of a reply that is not this server's own text. */
  function Echoed(managed: bool, authed: bool, args: seq<Bytes>, v: Verdict): Bytes {
    var cmd := CommandName(args);
    if args == [] then []
    else if cmd != AUTH && !authed then if managed && v.banned then v.message else []
    else if cmd == AUTH then
      if ParseAuthPassword(args) == None then if managed && v.banned then v.message else []
      else if managed && !v.allowed then v.message
      else []
    else if cmd == SUBSCRIBE then
      match ParseSubscribeChannel(args)
      case Some(channel) => if Lower(channel) == USAGE then [] else channel
      case None => []
    else if cmd == LPOP || cmd == RPOP then []
    else Lower(cmd)
  }

  lemma AsciiHasNoLf(s: string)
    requires forall i | 0 <= i < |s| :: ' ' <= s[i] <= '~'
    ensures LF !in Ascii(s)
  {
  }

  lemma ConcatHasLf(a: Bytes, b: Bytes)
    ensures LF in a + b <==> LF in a || LF in b
  {
  }

  lemma LowerHasLf(b: Bytes)
    ensures LF in Lower(b) <==> LF in b
  {
    assert forall i | 0 <= i < |b| :: Lower(b)[i] == LF <==> b[i] == LF;
  }

  lemma UpperHasLf(b: Bytes)
    ensures LF in Upper(b) <==> LF in b
  {
    assert forall i | 0 <= i < |b| :: Upper(b)[i] == LF <==> b[i] == LF;
  }

  /** A refusal is one line exactly as long as what it echoes has no line feed. */
  lemma EchoIsOneLine(prefix: string, echo: Bytes, suffix: string)
    requires forall i | 0 <= i < |prefix| :: ' ' <= prefix[i] <= '~'
    requires forall i | 0 <= i < |suffix| :: ' ' <= suffix[i] <= '~'
    ensures LF in Ascii(prefix) + echo + Ascii(suffix) <==> LF in echo
  {
    AsciiHasNoLf(prefix);
    AsciiHasNoLf(suffix);
    ConcatHasLf(Ascii(prefix), echo);
    ConcatHasLf(Ascii(prefix) + echo, Ascii(suffix));
  }

  lemma DeniedIsOneLine(message: Bytes)
    ensures LF in Ascii("ERR ") + message <==> LF in message
  {
    AsciiHasNoLf("ERR ");
    ConcatHasLf(Ascii("ERR "), message);
  }

  lemma WrongArgumentsIsOneLine(cmd: Bytes)
    requires LF !in cmd
    ensures LF !in WrongArguments(cmd)
  {
    LowerHasLf(cmd);
    EchoIsOneLine("ERR wrong number of arguments for '", Lower(cmd), "' command");
  }

  lemma CommandWordsHaveNoLf()
    ensures LF !in AUTH && LF !in SUBSCRIBE && LF !in LPOP && LF !in RPOP
  {
    AsciiHasNoLf("AUTH");
    AsciiHasNoLf("SUBSCRIBE");
    AsciiHasNoLf("LPOP");
    AsciiHasNoLf("RPOP");
  }

  /** A reply that is not about queue items is one line exactly when nothing it echoes has a line feed. */
  lemma PlainReplyIsOneLine(managed: bool, authed: bool, args: seq<Bytes>, v: Verdict)
    ensures OneLine(PlainReply(managed, authed, args, v)) <==> LF !in Echoed(managed, authed, args, v)
  {
    var cmd := CommandName(args);
    if args == [] {
      AsciiHasNoLf("ERR empty command");
    } else if cmd != AUTH && !authed {
      GuestReplyIsOneLine(managed, args, v);
    } else if cmd == AUTH {
      AuthReplyIsOneLine(managed, authed, args, v);
    } else if cmd == SUBSCRIBE {
      SubscribeReplyIsOneLine(managed, args, v);
    } else {
      OtherReplyIsOneLine(managed, args, v);
    }
  }

  lemma GuestReplyIsOneLine(managed: bool, args: seq<Bytes>, v: Verdict)
    requires args != [] && CommandName(args) != AUTH
    ensures OneLine(PlainReply(managed, false, args, v)) <==> LF !in Echoed(managed, false, args, v)
  {
    AsciiHasNoLf("NOAUTH Authentication required.");
    DeniedIsOneLine(Echoed(managed, false, args, v));
  }

  lemma SubscribeReplyIsOneLine(managed: bool, args: seq<Bytes>, v: Verdict)
    requires args != [] && CommandName(args) == SUBSCRIBE
    ensures OneLine(PlainReply(managed, true, args, v)) <==> LF !in Echoed(managed, true, args, v)
  {
    CommandWordsHaveNoLf();
    WrongArgumentsIsOneLine(SUBSCRIBE);
    EchoIsOneLine("ERR unsupported channel '", Echoed(managed, true, args, v), "'");
  }

  lemma OtherReplyIsOneLine(managed: bool, args: seq<Bytes>, v: Verdict)
    requires args != [] && CommandName(args) != AUTH && CommandName(args) != SUBSCRIBE
    ensures OneLine(PlainReply(managed, true, args, v)) <==> LF !in Echoed(managed, true, args, v)
  {
    if CommandName(args) == LPOP || CommandName(args) == RPOP {
      PopRefusalIsOneLine(managed, args, v);
    } else {
      EchoIsOneLine("ERR unknown command '", Lower(CommandName(args)), "'");
    }
  }

  lemma PopRefusalIsOneLine(managed: bool, args: seq<Bytes>, v: Verdict)
    requires args != [] && (CommandName(args) == LPOP || CommandName(args) == RPOP)
    requires CommandName(args) != AUTH && CommandName(args) != SUBSCRIBE
    ensures OneLine(PlainReply(managed, true, args, v)) && Echoed(managed, true, args, v) == []
  {
    CommandWordsHaveNoLf();
    WrongArgumentsIsOneLine(CommandName(args));
    AsciiHasNoLf("ERR value is not an integer or out of range");
  }

  lemma AuthReplyIsOneLine(managed: bool, authed: bool, args: seq<Bytes>, v: Verdict)
    requires args != [] && CommandName(args) == AUTH
    ensures OneLine(PlainReply(managed, authed, args, v)) <==> LF !in Echoed(managed, authed, args, v)
  {
    CommandWordsHaveNoLf();
    WrongArgumentsIsOneLine(AUTH);
    AsciiHasNoLf("ERR remote management disabled");
    AsciiHasNoLf("OK");
    DeniedIsOneLine(Echoed(managed, authed, args, v));
  }

  // ------------------------------------------------------------- which replies read back

  /** A client reads a reply for what it is, and stops right after it, exactly if the reply is one line. */
  lemma ReplyReadsBackIff(r: Reply, rest: Bytes)
    requires ItemsFit(r)
    ensures ParseReply(EncodeReply(r) + rest) == Done(AnswerTo(r), rest) <==> OneLine(r)
    ensures !OneLine(r) && ParseReply(EncodeReply(r) + rest).Done? ==>
      ParseReply(EncodeReply(r) + rest).value != AnswerTo(r)
  {
    match r
    case Status(text) => LineReadsBackIff(PLUS, text, rest);
    case Fault(message) => LineReadsBackIff(MINUS, message, rest);
    case NullBulk => NullRoundTrip(rest);
    case One(item) => BulkRoundTrip(item, rest);
    case Many(items) => CommandRoundTrip(items, rest);
    case Subscribed => SubscribedReadsBack(rest);
  }

  lemma LineReadsBackIff(prefix: byte, text: Bytes, rest: Bytes)
    requires prefix == PLUS || prefix == MINUS
    ensures var p := ParseReply([prefix] + text + CRLF + rest);
      && (p == Done(Line(prefix, text), rest) <==> LF !in text)
      && (LF in text && p.Done? ==> p.value != Line(prefix, text))
  {
    var b := text + CRLF + rest;
    assert ([prefix] + text + CRLF + rest)[1..] == b;
    if LF in text {
      assert b[|text| + 1] == LF;
      var at := FindLf(b, 0);
      assert LF !in b[..at] && LF !in DropCr(b[..at]);
    } else {
      LineRoundTrip(text, rest);
    }
  }

  lemma SubscribedReadsBack(rest: Bytes)
    ensures ParseReply(EncodeReply(Subscribed) + rest) == Done(AnswerTo(Subscribed), rest)
  {
    ThreeReadBack(Bulk(Ascii("subscribe")), Bulk(USAGE), Integer(1), rest);
  }

  /** The exact condition for a refusal to read back: nothing it echoes has a line feed. */
  lemma RefusalReadsBackIff(managed: bool, authed: bool, args: seq<Bytes>, v: Verdict, rest: Bytes)
    ensures var r := PlainReply(managed, authed, args, v);
      ParseReply(EncodeReply(r) + rest) == Done(AnswerTo(r), rest) <==> LF !in Echoed(managed, authed, args, v)
  {
    ReplyReadsBackIff(PlainReply(managed, authed, args, v), rest);
    PlainReplyIsOneLine(managed, authed, args, v);
  }

  /** An unknown command with a line feed in its name, once logged in: its reply reads as something else. */
  lemma EchoedLineFeedIsMisread(managed: bool, v: Verdict, rest: Bytes)
    ensures var r := PlainReply(managed, true, [[65, LF, 66]], v);
      && r == Fault(Ascii("ERR unknown command '") + [97, LF, 98] + Ascii("'"))
      && ParseReply(EncodeReply(r) + rest) != Done(AnswerTo(r), rest)
  {
    var args: seq<Bytes> := [[65, LF, 66]];
    assert Trim(args[0]) == args[0];
    assert CommandName(args) == args[0];
    assert |AUTH| == 4 && |SUBSCRIBE| == 9 && |LPOP| == 4 && |RPOP| == 4;
    assert Lower(args[0]) == [97, LF, 98];
    assert Echoed(managed, true, args, v)[1] == LF;
    RefusalReadsBackIff(managed, true, args, v, rest);
  }

  function Answers(turns: seq<Turn>): seq<Answer> {
    seq(|turns|, i requires 0 <= i < |turns| => AnswerTo(turns[i].reply))
  }

  /** What the connection wrote reads as one reply per command, in order, exactly if each reply is one line. */
  lemma OneReplyEachIff(turns: seq<Turn>)
    requires forall i | 0 <= i < |turns| :: ItemsFit(turns[i].reply)
    ensures ParseMany(ParseReply, Concat(Replies(turns)), |turns|) == Done(Answers(turns), [])
            <==> forall i | 0 <= i < |turns| :: OneLine(turns[i].reply)
  {
    forall i | 0 <= i < |turns|
      ensures if OneLine(turns[i].reply) then ReadsAs(ParseReply, Replies(turns)[i], Answers(turns)[i])
              else Misreads(ParseReply, Replies(turns)[i], Answers(turns)[i])
    {
      ReplyReadsOrMisreads(turns[i].reply);
    }
    assert Concat(Replies(turns)) + [] == Concat(Replies(turns));
    if ParseMany(ParseReply, Concat(Replies(turns)), |turns|) == Done(Answers(turns), []) {
      ManyReadBackOnlyIf(ParseReply, Replies(turns), Answers(turns), []);
      forall i | 0 <= i < |turns|
        ensures OneLine(turns[i].reply)
      {
        NeverBoth(ParseReply, Replies(turns)[i], Answers(turns)[i]);
      }
    }
    if forall i | 0 <= i < |turns| :: OneLine(turns[i].reply) {
      ManyReadBack(ParseReply, Replies(turns), Answers(turns), []);
    }
  }

  lemma NeverBoth(parse: Bytes -> Parsed<Answer>, part: Bytes, value: Answer)
    ensures !(ReadsAs(parse, part, value) && Misreads(parse, part, value))
  {
    assert !(parse(part + []).Done? && parse(part + []).value == value) || parse(part + []) == Done(value, [])
      || !ReadsAs(parse, part, value);
  }

  lemma ReplyReadsOrMisreads(r: Reply)
    requires ItemsFit(r)
    ensures if OneLine(r) then ReadsAs(ParseReply, EncodeReply(r), AnswerTo(r))
            else Misreads(ParseReply, EncodeReply(r), AnswerTo(r))
  {
    forall rest
      ensures if OneLine(r) then ParseReply(EncodeReply(r) + rest) == Done(AnswerTo(r), rest)
              else !(ParseReply(EncodeReply(r) + rest).Done? && ParseReply(EncodeReply(r) + rest).value == AnswerTo(r))
    {
      ReplyReadsBackIff(r, rest);
    }
  }

  /** What a turn's reply repeats of the command or of the management handler's message. */
  function EchoOf(managed: bool, t: Turn): Bytes {
    Echoed(managed, t.before, t.args, t.verdict)
  }

  lemma TurnIsOneLine(managed: bool, t: Turn)
    requires Lawful(managed, t)
    ensures OneLine(t.reply) <==> LF !in EchoOf(managed, t)
  {
    if PopRequest(t.before, t.args).None? { PlainReplyIsOneLine(managed, t.before, t.args, t.verdict); }
  }

  /** A conversation reads back as one answer per command exactly if nothing it echoes has a line feed. */
  lemma ConversationReadsBackIff(managed: bool, turns: seq<Turn>)
    requires Conversation(managed, turns) && forall i | 0 <= i < |turns| :: ItemsFit(turns[i].reply)
    ensures ParseMany(ParseReply, Concat(Replies(turns)), |turns|) == Done(Answers(turns), [])
            <==> forall i | 0 <= i < |turns| :: LF !in EchoOf(managed, turns[i])
  {
    OneReplyEachIff(turns);
    forall i | 0 <= i < |turns|
      ensures OneLine(turns[i].reply) <==> LF !in EchoOf(managed, turns[i])
    {
      TurnIsOneLine(managed, turns[i]);
    }
  }

  /** The command has nothing to echo that contains a line feed, whatever becomes of it. */
  predicate CleanCommand(args: seq<Bytes>) {
    && (args != [] ==> LF !in Trim(args[0]))
    && (|args| == 2 ==> LF !in Trim(args[1]))
  }

  lemma CleanCommandEchoesNoLf(managed: bool, authed: bool, args: seq<Bytes>, v: Verdict)
    requires CleanCommand(args) && LF !in v.message
    ensures LF !in Echoed(managed, authed, args, v)
  {
    if args != [] {
      UpperHasLf(Trim(args[0]));
      LowerHasLf(CommandName(args));
    }
  }

  // ---------------------------------------------------------------- the command loop

  /** Why the loop ended. */
  datatype Stop = Disabled | HomeMode | Broken(error: Error) | Streaming

  function ErrorText(e: Error): Bytes {
    match e
    case Eof => Ascii("EOF")
    case UnexpectedEof => Ascii("unexpected EOF")
    case Protocol => Ascii("protocol error")
    case TooLarge => []
  }

  /** What is written after the replies when the loop ends; nothing once the program panics. */
  function Farewell(stop: Stop): Bytes {
    match stop
    case HomeMode => EncodeReply(Fault(Ascii("ERR redis usage output disabled in home mode")))
    case Broken(e) => if e == Eof || e == TooLarge then [] else EncodeReply(Fault(Ascii("ERR ") + ErrorText(e)))
    case _ => []
  }

  /** The commands in `start` are those of the turns and then those in `rest`. */
  ghost predicate Reads(start: Bytes, turns: seq<Turn>, rest: Bytes) {
    ParseAll(start).0 == Commands(turns) + ParseAll(rest).0 && ParseAll(start).1 == ParseAll(rest).1
  }

  /** Every command up to the end of the loop had its turn, in order. */
  ghost predicate Served(start: Bytes, turns: seq<Turn>, stop: Stop, rest: Bytes) {
    match stop
    case HomeMode => turns == [] && rest == start
    case Broken(e) => ParseAll(start) == (Commands(turns), e)
    case _ => Reads(start, turns, rest)
  }

  lemma ReadsFromStart(start: Bytes)
    ensures Reads(start, [], start)
  {
    assert Commands([]) + ParseAll(start).0 == ParseAll(start).0;
  }

  lemma ReadsToEnd(start: Bytes, turns: seq<Turn>, b: Bytes)
    requires Reads(start, turns, b) && ParseArray(b).Failed?
    ensures ParseAll(start) == (Commands(turns), ParseArray(b).error)
  {
    assert Commands(turns) + [] == Commands(turns);
  }

  lemma ReadsOn(start: Bytes, turns: seq<Turn>, b: Bytes, t: Turn)
    requires Reads(start, turns, b) && ParseArray(b).Done? && t.args == ParseArray(b).value
    ensures Reads(start, turns + [t], ParseArray(b).rest)
  {
    assert Commands(turns + [t]) == Commands(turns) + [t.args];
    MoveOne(Commands(turns), t.args, ParseAll(ParseArray(b).rest).0);
  }

  lemma TurnFollows(managed: bool, turns: seq<Turn>, t: Turn)
    requires Conversation(managed, turns) && Lawful(managed, t) && t.before == (turns != [] && turns[|turns| - 1].after)
    ensures Conversation(managed, turns + [t])
  {
    var more := turns + [t];
    forall i | 0 <= i < |more|
      ensures Lawful(managed, more[i]) && Follows(more, i)
    {
      if i < |turns| { assert Lawful(managed, turns[i]) && Follows(turns, i); }
    }
  }

  lemma TurnPops(turns: seq<Turn>, t: Turn)
    ensures Popped(turns + [t]) == Popped(turns) + if t.popped.Some? then [t.popped.value] else []
  {
    assert (turns + [t])[..|turns|] == turns;
  }

  lemma TurnReplies(turns: seq<Turn>, t: Turn)
    ensures Concat(Replies(turns + [t])) == Concat(Replies(turns)) + EncodeReply(t.reply)
  {
    var reply := EncodeReply(t.reply);
    assert Replies(turns + [t]) == Replies(turns) + [reply];
    ConcatPush(Replies(turns), reply);
  }

  /** The turns are a conversation that left this login state and these commands unread. */
  ghost predicate Balanced(managed: bool, turns: seq<Turn>, authed: bool, start: Bytes, rest: Bytes) {
    && Conversation(managed, turns) && authed == (turns != [] && turns[|turns| - 1].after)
    && Reads(start, turns, rest)
  }

  lemma TurnTaken(managed: bool, turns: seq<Turn>, t: Turn, start: Bytes, b: Bytes)
    requires Balanced(managed, turns, t.before, start, b) && Lawful(managed, t)
    requires ParseArray(b).Done? && t.args == ParseArray(b).value
    ensures Balanced(managed, turns + [t], t.after, start, ParseArray(b).rest)
  {
    TurnFollows(managed, turns, t);
    ReadsOn(start, turns, b, t);
  }

  lemma TurnAccounts(turns: seq<Turn>, t: Turn, was: Bytes, pops: seq<Pop>)
    ensures was + Concat(Replies(turns + [t])) == (was + Concat(Replies(turns))) + EncodeReply(t.reply)
    ensures pops + Popped(turns + [t]) == (pops + Popped(turns)) + if t.popped.Some? then [t.popped.value] else []
  {
    TurnPops(turns, t);
    TurnReplies(turns, t);
    Associative(was, Concat(Replies(turns)), EncodeReply(t.reply));
  }

  /** The management handler was asked for its verdicts in order. */
  ghost predicate Asked(turns: seq<Turn>, verdicts: nat -> Verdict) {
    forall i | 0 <= i < |turns| :: turns[i].verdict == verdicts(i)
  }

  /** The loop went on as long as it was enabled and ended at once with a subscription. */
  ghost predicate EndsWhenDue(turns: seq<Turn>, stop: Stop, enabled: nat -> bool) {
    && (forall i | 0 <= i < |turns| :: enabled(i))
    && (stop == Disabled ==> !enabled(|turns|))
    && (stop.Broken? ==> enabled(|turns|))
    && (forall i | 0 <= i < |turns| - 1 :: turns[i].reply != Subscribed)
    && (stop == Streaming <==> turns != [] && turns[|turns| - 1].reply == Subscribed)
  }

  /** One turn was added, with this verdict. */
  predicate OneMore(turns: seq<Turn>, more: seq<Turn>, v: Verdict) {
    |more| == |turns| + 1 && turns <= more && more[|turns|].verdict == v
  }

  ghost predicate GoesOn(turns: seq<Turn>, enabled: nat -> bool) {
    forall i | 0 <= i < |turns| :: enabled(i) && turns[i].reply != Subscribed
  }

  lemma GoesOnOrEnds(turns: seq<Turn>, more: seq<Turn>, v: Verdict, stop: Option<Stop>, enabled: nat -> bool)
    requires GoesOn(turns, enabled) && enabled(|turns|)
    requires OneMore(turns, more, v) || (more == turns && stop.Some? && stop.value.Broken?)
    requires OneMore(turns, more, v) ==> stop == if more[|turns|].reply == Subscribed then Some(Streaming) else None
    ensures if stop == None then GoesOn(more, enabled) else EndsWhenDue(more, stop.value, enabled)
  {
    assert forall i | 0 <= i < |turns| :: more[i] == turns[i];
  }

  lemma PushedIsOneMore(turns: seq<Turn>, t: Turn)
    ensures OneMore(turns, turns + [t], t.verdict)
  {
  }

  lemma AskedOneMore(turns: seq<Turn>, more: seq<Turn>, verdicts: nat -> Verdict, n: nat)
    requires Asked(turns, verdicts) && |turns| == n && (OneMore(turns, more, verdicts(n)) || more == turns)
    ensures Asked(more, verdicts)
  {
    forall i | 0 <= i < |more|
      ensures more[i].verdict == verdicts(i)
    {
      if i < n { assert more[i] == turns[i]; }
    }
  }

  /**
   One answer per command for a whole connection: if neither the commands in
   the stream nor the handler's messages have a line feed to echo, a client
   reads exactly one answer to each command that had a turn, in order.
   */
  lemma EveryCommandAnswered(managed: bool, turns: seq<Turn>, start: Bytes, stop: Stop, rest: Bytes, verdicts: nat -> Verdict)
    requires Conversation(managed, turns) && Served(start, turns, stop, rest) && Asked(turns, verdicts)
    requires forall i | 0 <= i < |turns| :: ItemsFit(turns[i].reply)
    requires forall n :: LF !in verdicts(n).message
    requires forall i | 0 <= i < |ParseAll(start).0| :: CleanCommand(ParseAll(start).0[i])
    ensures ParseMany(ParseReply, Concat(Replies(turns)), |turns|) == Done(Answers(turns), [])
    ensures Commands(turns) <= ParseAll(start).0
    ensures stop.Broken? ==> |turns| == |ParseAll(start).0|
  {
    forall i | 0 <= i < |turns|
      ensures LF !in EchoOf(managed, turns[i])
    {
      assert turns[i].args == Commands(turns)[i] == ParseAll(start).0[i];
      CleanCommandEchoesNoLf(managed, turns[i].before, turns[i].args, turns[i].verdict);
    }
    ConversationReadsBackIff(managed, turns);
  }

  class Connection {
    /** Whether there is a management handler to ask. */
    const managed: bool
    const reader: Reader
    const writer: Writer
    const queue: UsageQueue
    var authed: bool

    constructor (managed: bool, reader: Reader, writer: Writer, queue: UsageQueue)
      ensures this.managed == managed && this.reader == reader && this.writer == writer && this.queue == queue
      ensures !authed
    {
      this.managed, this.reader, this.writer, this.queue, authed := managed, reader, writer, queue, false;
    }

    method Fail(message: Bytes) returns (r: Reply)
      modifies writer
      ensures r == Fault(message) && writer.out == old(writer.out) + EncodeReply(r)
    {
      writer.WriteError(message);
      r := Fault(message);
    }

    method HandleAuth(args: seq<Bytes>, v: Verdict) returns (r: Reply)
      requires args != [] && CommandName(args) == AUTH
      modifies this, writer
      ensures r == PlainReply(managed, old(authed), args, v) && writer.out == old(writer.out) + EncodeReply(r)
      ensures authed <==> old(authed) || r == Status(Ascii("OK"))
    {
      var password := ParseAuthPassword(args);
      if password == None {
        if managed && v.banned {
          r := Fail(Ascii("ERR ") + v.message);
        } else {
          r := Fail(WrongArguments(AUTH));
        }
      } else if !managed {
        r := Fail(Ascii("ERR remote management disabled"));
      } else if !v.allowed {
        r := Fail(Ascii("ERR ") + v.message);
      } else {
        authed := true;
        writer.WriteSimpleString(Ascii("OK"));
        r := Status(Ascii("OK"));
      }
    }

    method HandleSubscribe(args: seq<Bytes>, ghost v: Verdict) returns (r: Reply)
      requires args != [] && CommandName(args) == SUBSCRIBE && authed
      modifies writer
      ensures r == PlainReply(managed, authed, args, v) && writer.out == old(writer.out) + EncodeReply(r)
    {
      var channel := ParseSubscribeChannel(args);
      if channel == None {
        r := Fail(WrongArguments(SUBSCRIBE));
      } else if Lower(channel.value) != USAGE {
        r := Fail(Ascii("ERR unsupported channel '") + channel.value + Ascii("'"));
      } else {
        writer.WriteSubscribe(USAGE, 1);
        r := Subscribed;
      }
    }

    method HandlePop(args: seq<Bytes>, expired: nat, ghost v: Verdict) returns (r: Reply, ghost popped: Option<Pop>)
      requires args != [] && authed && (CommandName(args) == LPOP || CommandName(args) == RPOP)
      modifies writer, queue
      ensures match PopRequest(true, args)
        case Some(c) =>
          && popped == Some(Pop(Unexpired(old(queue.items), expired), Oldest(Unexpired(old(queue.items), expired), c.n)))
          && popped.value.queued == popped.value.taken + queue.items && r == PopReply(c, popped.value.taken)
        case None => popped == None && queue.items == old(queue.items) && r == PlainReply(managed, true, args, v)
      ensures writer.out == old(writer.out) + EncodeReply(r)
      ensures queue.pops == old(queue.pops) + if popped.Some? then [popped.value] else []
    {
      popped := None;
      var c := ParsePopCount(args);
      if c == None {
        r := Fail(WrongArguments(CommandName(args)));
      } else if c.value.n <= 0 {
        r := Fail(Ascii("ERR value is not an integer or out of range"));
      } else {
        var items := queue.PopOldest(c.value.n, expired);
        popped := Some(Pop(Unexpired(old(queue.items), expired), items));
        r := Hand(c.value, items);
      }
    }

    method Hand(c: Count, items: seq<Bytes>) returns (r: Reply)
      modifies writer
      ensures r == PopReply(c, items) && writer.out == old(writer.out) + EncodeReply(r)
    {
      if c.given {
        writer.WriteArray(Fields(items));
        r := Many(items);
      } else if items == [] {
        writer.WriteField(Null);
        r := NullBulk;
      } else {
        writer.WriteField(Bulk(items[0]));
        r := One(items[0]);
      }
    }

    /** One command and its reply. */
    method Handle(args: seq<Bytes>, v: Verdict, expired: nat) returns (ghost t: Turn, r: Reply)
      modifies this, writer, queue
      ensures Lawful(managed, t) && t.args == args && t.before == old(authed) && t.after == authed && t.reply == r
      ensures t.verdict == v && writer.out == old(writer.out) + EncodeReply(r)
      ensures queue.pops == old(queue.pops) + if t.popped.Some? then [t.popped.value] else []
      ensures if t.popped.Some? then
          && t.popped.value.queued == Unexpired(old(queue.items), expired)
          && t.popped.value.queued == t.popped.value.taken + queue.items
        else queue.items == old(queue.items)
    {
      ghost var popped: Option<Pop> := None;
      ghost var before := authed;
      var cmd := CommandName(args);
      if args == [] {
        r := Fail(Ascii("ERR empty command"));
      } else if cmd != AUTH && !authed {
        r := Fail(if managed && v.banned then Ascii("ERR ") + v.message else Ascii("NOAUTH Authentication required."));
      } else if cmd == AUTH {
        r := HandleAuth(args, v);
      } else if cmd == SUBSCRIBE {
        r := HandleSubscribe(args, v);
      } else if cmd == LPOP || cmd == RPOP {
        r, popped := HandlePop(args, expired, v);
      } else {
        r := Fail(Ascii("ERR unknown command '") + Lower(cmd) + Ascii("'"));
      }
      t := Turn(args, v, before, authed, popped, r);
    }

    method SayFarewell(stop: Stop)
      modifies writer
      ensures writer.out == old(writer.out) + Farewell(stop)
    {
      match stop
      case HomeMode =>
        writer.WriteError(Ascii("ERR redis usage output disabled in home mode"));
      case Broken(e) =>
        if e != Eof && e != TooLarge { writer.WriteError(Ascii("ERR ") + ErrorText(e)); }
      case _ =>
    }

    /** The accounts since the connection was opened, when `was` was written and `pops` were popped. */
    ghost predicate Accounted(turns: seq<Turn>, start: Bytes, was: Bytes, pops: seq<Pop>)
      reads this, reader, writer, queue
    {
      && writer.out == was + Concat(Replies(turns)) && queue.pops == pops + Popped(turns)
      && reader.Valid() && Balanced(managed, turns, authed, start, reader.Rest())
    }

    /** Handles one command that was just read from `b`, and accounts for it. */
    method TakeTurn(ghost turns: seq<Turn>, ghost start: Bytes, ghost was: Bytes, ghost pops: seq<Pop>,
                    args: seq<Bytes>, ghost b: Bytes, v: Verdict, expired: nat)
      returns (ghost more: seq<Turn>, r: Reply)
      requires writer.out == was + Concat(Replies(turns)) && queue.pops == pops + Popped(turns)
      requires reader.Valid() && Balanced(managed, turns, authed, start, b) && ParseArray(b) == Done(args, reader.Rest())
      modifies this, writer, queue
      ensures Accounted(more, start, was, pops) && more != [] && more[|more| - 1].reply == r
      ensures OneMore(turns, more, v)
    {
      ghost var t;
      t, r := Handle(args, v, expired);
      TurnTaken(managed, turns, t, start, b);
      TurnAccounts(turns, t, was, pops);
      PushedIsOneMore(turns, t);
      more := turns + [t];
    }

    /** Reads and handles one command; the stop, if any, says why there is no next one. */
    method ServeOne(ghost turns: seq<Turn>, ghost start: Bytes, ghost was: Bytes, ghost pops: seq<Pop>,
                    v: Verdict, expired: nat)
      returns (ghost more: seq<Turn>, stop: Option<Stop>)
      requires Accounted(turns, start, was, pops)
      modifies this, reader, writer, queue
      ensures stop == None || stop == Some(Streaming) || (stop.Some? && stop.value.Broken?)
      ensures Conversation(managed, more) && writer.out == was + Concat(Replies(more)) && queue.pops == pops + Popped(more)
      ensures OneMore(turns, more, v) || (more == turns && stop.Some? && stop.value.Broken?)
      ensures OneMore(turns, more, v) ==> stop == if more[|turns|].reply == Subscribed then Some(Streaming) else None
      ensures stop == None ==> Accounted(more, start, was, pops) && |reader.Rest()| < |old(reader.Rest())|
      ensures stop.Some? ==> reader.Valid() && Served(start, more, stop.value, reader.Rest())
    {
      ghost var b := reader.Rest();
      var p := reader.ReadArray();
      ParseShrinks(b);
      if p.Failed? {
        ReadsToEnd(start, turns, b);
        return turns, Some(Broken(p.error));
      }
      queue.Interfere();
      var r;
      more, r := TakeTurn(turns, start, was, pops, p.value, b, v, expired);
      stop := if r == Subscribed then Some(Streaming) else None;
    }

    /**
     Serves the connection. The verdicts, the expiry of queued records and the
     switch that turns management off are what the environment makes of them.
     */
    method Run(homeMode: bool, verdicts: nat -> Verdict, expiries: nat -> nat, enabled: nat -> bool)
      returns (ghost turns: seq<Turn>, stop: Stop)
      requires reader.Valid() && !authed
      modifies this, reader, writer, queue
      ensures Conversation(managed, turns) && Asked(turns, verdicts)
      ensures writer.out == old(writer.out) + Concat(Replies(turns)) + Farewell(stop)
      ensures queue.pops == old(queue.pops) + Popped(turns)
      ensures reader.Valid() && Served(old(reader.Rest()), turns, stop, reader.Rest())
      ensures stop == HomeMode <==> homeMode
      ensures !homeMode ==> EndsWhenDue(turns, stop, enabled)
    {
      turns := [];
      ghost var start, was, pops := reader.Rest(), writer.out, queue.pops;
      ReadsFromStart(start);
      if homeMode {
        stop := HomeMode;
      } else {
        turns, stop := Loop(start, was, pops, verdicts, expiries, enabled);
      }
      SayFarewell(stop);
    }

    method Loop(ghost start: Bytes, ghost was: Bytes, ghost pops: seq<Pop>,
                verdicts: nat -> Verdict, expiries: nat -> nat, enabled: nat -> bool)
      returns (ghost turns: seq<Turn>, stop: Stop)
      requires Accounted([], start, was, pops)
      modifies this, reader, writer, queue
      ensures Conversation(managed, turns) && Asked(turns, verdicts) && stop != HomeMode
      ensures writer.out == was + Concat(Replies(turns)) && queue.pops == pops + Popped(turns)
      ensures reader.Valid() && Served(start, turns, stop, reader.Rest()) && EndsWhenDue(turns, stop, enabled)
    {
      turns := [];
      var n := 0;
      while enabled(n)
        invariant Accounted(turns, start, was, pops) && |turns| == n && Asked(turns, verdicts)
        invariant GoesOn(turns, enabled)
        decreases |reader.Rest()|
      {
        var why;
        ghost var prior := turns;
        turns, why := ServeOne(turns, start, was, pops, verdicts(n), expiries(n));
        AskedOneMore(prior, turns, verdicts, n);
        GoesOnOrEnds(prior, turns, verdicts(n), why, enabled);
        if why.Some? { return turns, why.value; }
        n := n + 1;
      }
      stop := Disabled;
    }
  }
}

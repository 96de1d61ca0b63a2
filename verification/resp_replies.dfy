/** The canned replies of the Redis honeypot (services/redis_honeypot/protocol.py). */
module RespReplies {
  import opened Bytes
  import opened RespProtocol
  import opened Utf8

  /** The reply forms; a pair is the two-element array that answers CONFIG GET. */
  datatype Reply =
    | Simple(text: bytes)
    | Error(text: bytes)
    | Bulk(text: bytes)
    | Pair(key: bytes, value: bytes)
    | EmptyArray
    | Nil

  datatype Answer = Answer(reply: Reply, close: bool, rce: bool)

  /** An ASCII literal as bytes. */
  function Ascii(s: string): (b: bytes)
    ensures |b| == |s|
  {
    seq(|s|, i requires 0 <= i < |s| => if s[i] as int < 128 then s[i] as int else 63)
  }

  const INFO := "# Server\r\nredis_version:7.0.11\r\nos:Linux 5.15.0-86-generic x86_64\r\nprocess_id:1\r\ntcp_port:6379\r\n# Clients\r\nconnected_clients:1\r\n# Memory\r\nused_memory_human:1.10M\r\n# Keyspace\r\ndb0:keys=3,expires=0,avg_ttl=0\r\n"
  const NO_PASSWORD := "ERR Client sent AUTH, but no password is set"

  const OK_COMMANDS: set<bytes> :=
    {Ascii("SET"), Ascii("RENAME"), Ascii("RENAMENX"), Ascii("FLUSHALL"), Ascii("FLUSHDB"), Ascii("SAVE"), Ascii("BGSAVE")}

  function Arg(args: Args, i: nat): bytes {
    if i < |args| then args[i] else []
  }

  function ConfigValue(key: bytes): bytes {
    if key == Ascii("dir") then Ascii("/var/lib/redis")
    else if key == Ascii("dbfilename") then Ascii("dump.rdb")
    else []
  }

  function ConfigReply(args: Args): Answer {
    var sub := Upper(Arg(args, 1));
    if sub == Ascii("GET") then Answer(Pair(Arg(args, 2), ConfigValue(Arg(args, 2))), false, false)
    else Answer(Simple(Ascii("OK")), false, sub == Ascii("SET") && Lower(Arg(args, 2)) in {Ascii("dir"), Ascii("dbfilename")})
  }

  function UnknownCommand(name: bytes): bytes {
    Ascii("ERR unknown command '") + name + Ascii("'")
  }

  /** The commands that have a reply of their own. */
  predicate IsKnown(cmd: bytes) {
    || cmd in OK_COMMANDS
    || cmd in {Ascii("PING"), Ascii("AUTH"), Ascii("INFO"), Ascii("COMMAND"), Ascii("SELECT"), Ascii("CONFIG"), Ascii("GET"), Ascii("QUIT")}
  }

  /** `reply_for` */
  function ReplyFor(args: Args): Answer {
    if Arg(args, 0) == [] then Answer(Error(Ascii("ERR unknown command")), false, false)
    else
      var cmd := Upper(args[0]);
      if cmd == Ascii("PING") then Answer(if |args| == 1 then Simple(Ascii("PONG")) else Bulk(args[1]), false, false)
      else if cmd == Ascii("AUTH") then Answer(Error(Ascii(NO_PASSWORD)), false, false)
      else if cmd == Ascii("INFO") then Answer(Bulk(Ascii(INFO)), false, false)
      else if cmd == Ascii("COMMAND") then Answer(EmptyArray, false, false)
      else if cmd == Ascii("SELECT") then Answer(Simple(Ascii("OK")), false, false)
      else if cmd == Ascii("CONFIG") then ConfigReply(args)
      else if cmd in OK_COMMANDS then Answer(Simple(Ascii("OK")), false, false)
      else if cmd == Ascii("GET") then Answer(Nil, false, false)
      else if cmd == Ascii("QUIT") then Answer(Simple(Ascii("OK")), true, false)
      else Answer(Error(UnknownCommand(args[0])), false, false)
  }

  // ---- on the wire -------------------------------------------------------------------

  const PLUS: byte := 43
  const MINUS: byte := 45
  const NIL: bytes := [36, 45, 49, 13, 10]       // "$-1 CRLF"
  const EMPTY: bytes := [42, 48, 13, 10]         // "*0 CRLF"
  const TWO: bytes := [42, 50, 13, 10]           // "*2 CRLF"

  /** `_bulk`, which announces the number of characters. */
  function PrintBulk(text: bytes): bytes {
    [DOLLAR] + Decimal.Print(CharCount(text)) + CRLF + text + CRLF
  }

  function Print(r: Reply): bytes {
    match r
    case Simple(text) => [PLUS] + text + CRLF
    case Error(text) => [MINUS] + text + CRLF
    case Bulk(text) => PrintBulk(text)
    case Pair(key, value) => TWO + PrintBulk(key) + PrintBulk(value)
    case EmptyArray => EMPTY
    case Nil => NIL
  }

  /** A client's reading of a reply: exactly one value, with nothing behind it. */
  function Read(b: bytes): Option<Reply> {
    if b == NIL then Some(Nil)
    else if b == EMPTY then Some(EmptyArray)
    else if |b| > 0 && b[0] == PLUS && FindCrlf(b, 1) == |b| - 2 >= 1 then Some(Simple(b[1..|b| - 2]))
    else if |b| > 0 && b[0] == MINUS && FindCrlf(b, 1) == |b| - 2 >= 1 then Some(Error(b[1..|b| - 2]))
    else if |b| > 0 && b[0] == DOLLAR then ReadOne(b)
    else if TWO <= b then ReadTwo(b)
    else None
  }

  function ReadOne(b: bytes): Option<Reply> {
    match ReadBulk(b, 0)
    case Body(text, end) => if 0 <= end == |b| - 2 && CrlfAt(b, end) then Some(Bulk(text)) else None
    case _ => None
  }

  function ReadTwo(b: bytes): Option<Reply> {
    match ParseBulks(b, 4, 2, [])
    case Command(args, rest) => if rest == [] && |args| == 2 then Some(Pair(args[0], args[1])) else None
    case Incomplete => None
  }

  ghost predicate HasCrlf(b: bytes) {
    exists k :: CrlfAt(b, k)
  }

  predicate Short(b: bytes) {
    |Decimal.Print(CharCount(b))| <= Decimal.MAX_STR_DIGITS
  }

  /** More bytes than characters. */
  predicate Wide(b: bytes) {
    CharCount(b) < |b|
  }

  /** Whether a reply is one line, so that its text must not break it. */
  predicate IsLine(r: Reply) {
    r.Simple? || r.Error?
  }

  lemma LineEnd(mark: byte, text: bytes)
    requires mark != CR
    ensures var b := [mark] + text + CRLF; FindCrlf(b, 1) == |b| - 2 <==> !HasCrlf(text)
  {
    var b := [mark] + text + CRLF;
    assert CrlfAt(b, |b| - 2);
    if k :| CrlfAt(text, k) {
      assert CrlfAt(b, k + 1);
    } else {
      forall k | 1 <= k < |b| - 2 ensures !CrlfAt(b, k) {
        assert k + 1 < |b| - 2 ==> CrlfAt(text, k - 1) == CrlfAt(b, k);
      }
      FindCrlfUnique(b, 1, |b| - 2);
    }
  }

  lemma ReadLine(r: Reply)
    requires IsLine(r)
    ensures Read(Print(r)) == Some(r) <==> !HasCrlf(r.text)
  {
    hide FindCrlf, ReadBulk, ParseBulks, HasCrlf;
    var b := Print(r);
    LineEnd(b[0], r.text);
    assert b[1..|b| - 2] == r.text;
  }

  /** A printed bulk string is read up to the announced length. */
  lemma ReadPrintedBulk(pre: bytes, text: bytes, rest: bytes)
    requires Short(text)
    ensures var n := CharCount(text);
      ReadBulk(pre + PrintBulk(text) + rest, |pre|) == Body(text[..n], |pre| + |PrintBulk(text)| - 2 - (|text| - n))
  {
    hide Decimal.ParseInt, Decimal.Print, FindCrlf, Slice, CharCount, PrintBulk;
    var n := CharCount(text);
    var buf, start := pre + PrintBulk(text) + rest, |pre| + 3 + |Decimal.Print(n)|;
    PrintedLayout(pre, text, rest);
    HeaderEnd(pre, DOLLAR, n, text + CRLF + rest);
    Decimal.ParseIntOfPrint(n);
    SliceInside(buf, |pre|, |pre| + 1);
    SliceInside(buf, start, start + n);
    assert buf[|pre|..|pre| + 1] == [DOLLAR];
  }

  lemma PrintedLayout(pre: bytes, text: bytes, rest: bytes)
    ensures var n := CharCount(text);
      var buf, start := pre + PrintBulk(text) + rest, |pre| + 3 + |Decimal.Print(n)|;
      && buf == pre + [DOLLAR] + Decimal.Print(n) + CRLF + (text + CRLF + rest)
      && start + |text| == |pre| + |PrintBulk(text)| - 2 <= |buf| - 2
      && buf[start..start + n] == text[..n]
  {
    hide Decimal.Print, CharCount;
    var n := CharCount(text);
    var head := pre + [DOLLAR] + Decimal.Print(n) + CRLF;
    assert pre + PrintBulk(text) + rest == head + (text + CRLF + rest);
    assert (head + (text + CRLF + rest))[|head|..|head| + n] == text[..n];
  }

  lemma ReadBulkReply(text: bytes)
    requires Short(text)
    ensures Read(Print(Bulk(text))) == Some(Bulk(text)) <==> !Wide(text)
    ensures Wide(text) ==> Read(Print(Bulk(text))) == None
  {
    var b := PrintBulk(text);
    hide ReadBulk, Read, CharCount, PrintBulk;
    ReadPrintedBulk([], text, []);
    assert [] + b + [] == b;
    NotNil(text);
    BulkIsLong(text);
    ReadDollar(b);
    assert text[..|text|] == text;
  }

  lemma ReadDollar(b: bytes)
    requires b != [] && b != NIL && b[0] == DOLLAR
    ensures Read(b) == ReadOne(b)
  {
    hide ReadOne, ReadTwo, FindCrlf;
    assert b != EMPTY;
  }

  /** A printed bulk string does not start like the nil reply. */
  lemma NotNil(text: bytes)
    ensures PrintBulk(text) != NIL && PrintBulk(text)[0] == DOLLAR
  {
    hide CharCount;
    var digits := Decimal.Print(CharCount(text));
    assert digits[0] in digits;
    assert PrintBulk(text)[1] == digits[0];
  }

  lemma ReadArray(b: bytes)
    requires TWO <= b
    ensures Read(b) == ReadTwo(b)
  {
    hide ReadBulk, ParseBulks, FindCrlf, ReadTwo;
    assert b[0] == TWO[0] && b[1] == TWO[1];
    assert b != NIL && b != EMPTY && b[0] != PLUS && b[0] != MINUS && b[0] != DOLLAR;
  }

  lemma FirstOfTwo(b: bytes, arg: bytes, end: int)
    requires ReadBulk(b, 4) == Body(arg, end)
    ensures ReadTwo(b).Some? ==> ReadTwo(b).value.Pair? && ReadTwo(b).value.key == arg
  {
    hide ReadBulk;
  }

  lemma BothOfTwo(b: bytes, arg: bytes, end: nat, arg': bytes, end': int)
    requires ReadBulk(b, 4) == Body(arg, end) && ReadBulk(b, end + 2) == Body(arg', end')
    ensures ReadTwo(b) == if From(b, end' + 2) == [] then Some(Pair(arg, arg')) else None
  {
    hide ReadBulk, From;
    assert [] + [arg] + [arg'] == [arg, arg'];
    assert ParseBulks(b, end' + 2, 0, [arg, arg']) == Command([arg, arg'], From(b, end' + 2));
    assert ParseBulks(b, end + 2, 1, [arg]) == ParseBulks(b, end' + 2, 0, [arg, arg']);
    assert ParseBulks(b, 4, 2, []) == ParseBulks(b, end + 2, 1, [arg]);
  }

  lemma ReadPair(key: bytes, value: bytes)
    requires Short(key) && Short(value)
    ensures Read(Print(Pair(key, value))) == Some(Pair(key, value)) <==> !Wide(key) && !Wide(value)
  {
    var b := Print(Pair(key, value));
    var k, v := PrintBulk(key), PrintBulk(value);
    hide Print, PrintBulk, ReadBulk, ReadTwo, Short, CharCount, Read;
    assert b == TWO + k + v by { PairParts(key, value); }
    ReadPrintedBulk(TWO, key, v);
    ReadPrintedBulk(TWO + k, value, []);
    assert TWO + k + v + [] == TWO + k + v;
    assert TWO + k + v == TWO + (k + v);
    ReadArray(b);
    assert key[..|key|] == key && value[..|value|] == value;
    if Wide(key) {
      FirstOfTwo(b, key[..CharCount(key)], 4 + |k| - 2 - (|key| - CharCount(key)));
    } else {
      var n := CharCount(value);
      BulkIsLong(key);
      BulkIsLong(value);
      BothOfTwo(b, key, 4 + |k| - 2, value[..n], 4 + |k| + |v| - 2 - (|value| - n));
    }
  }

  lemma BulkIsLong(text: bytes)
    ensures |PrintBulk(text)| >= |text| + 5 && CrlfAt(PrintBulk(text), |PrintBulk(text)| - 2)
  {
    hide Decimal.Print, CharCount;
    var b := PrintBulk(text);
    assert b[|b| - 2..] == CRLF;
    assert b[|b| - 2..][0] == CR && b[|b| - 2..][1] == LF;
  }

  lemma PairParts(key: bytes, value: bytes)
    ensures Print(Pair(key, value)) == TWO + PrintBulk(key) + PrintBulk(value)
  {
  }

  // ---- which replies a client can read ----------------------------------------------------

  /** What stands in the way of reading a reply: a line broken by a CRLF, or a bulk string announced
      with too few bytes. */
  ghost predicate Broken(r: Reply) {
    match r
    case Simple(text) => HasCrlf(text)
    case Error(text) => HasCrlf(text)
    case Bulk(text) => Wide(text)
    case Pair(key, value) => Wide(key) || Wide(value)
    case EmptyArray => false
    case Nil => false
  }

  /** A reply reads back as itself exactly when it is not broken. */
  lemma ReadPrintIff(r: Reply)
    requires r.Bulk? ==> Short(r.text)
    requires r.Pair? ==> Short(r.key) && Short(r.value)
    ensures Read(Print(r)) == Some(r) <==> !Broken(r)
  {
    hide Read, Print, Wide, HasCrlf, Short;
    if IsLine(r) {
      ReadLine(r);
    } else if r.Bulk? {
      ReadBulkReply(r.text);
    } else if r.Pair? {
      ReadPair(r.key, r.value);
    } else {
      ReadConstants();
    }
  }

  lemma ReadConstants()
    ensures Read(Print(EmptyArray)) == Some(EmptyArray) && Read(Print(Nil)) == Some(Nil)
  {
    hide FindCrlf, ReadBulk, ParseBulks;
  }

  lemma NoCrIn(s: string)
    requires forall i :: 0 <= i < |s| ==> s[i] != '\r'
    ensures !HasCrlf(Ascii(s))
  {
  }

  lemma CannedLines()
    ensures !HasCrlf(Ascii("OK")) && !HasCrlf(Ascii("PONG")) && !HasCrlf(Ascii("ERR unknown command"))
    ensures !HasCrlf(Ascii(NO_PASSWORD))
  {
    NoCrIn("OK");
    NoCrIn("PONG");
    NoCrIn("ERR unknown command");
    NoCrIn(NO_PASSWORD);
  }

  lemma UnknownHasCrlf(name: bytes)
    ensures HasCrlf(UnknownCommand(name)) <==> HasCrlf(name)
  {
    var head, tail := Ascii("ERR unknown command '"), Ascii("'");
    var text := head + name + tail;
    assert head[20] == 39 && tail[0] == 39 && |head| == 21;
    if k :| CrlfAt(name, k) {
      assert CrlfAt(text, |head| + k);
    }
    if k :| CrlfAt(text, k) {
      NoCrInHead(text, k);
      assert CrlfAt(name, k - |head|);
    }
  }

  lemma NoCrInHead(text: bytes, k: nat)
    requires Ascii("ERR unknown command '") <= text
    ensures k < 21 ==> text[k] != CR
  {
    assert text[..21] == Ascii("ERR unknown command '");
    assert k < 21 ==> text[k] == text[..21][k];
  }

  /** The argument that a reply sends back: that of PING, or the key of CONFIG GET. */
  function Echoed(args: Args): bytes {
    var cmd := Upper(Arg(args, 0));
    if cmd == Ascii("PING") then Arg(args, 1)
    else if cmd == Ascii("CONFIG") && Upper(Arg(args, 1)) == Ascii("GET") then Arg(args, 2)
    else []
  }

  /** Every reply is one value that reads back as itself, with two exceptions: an unknown command whose
      name contains a CRLF breaks the error line that echoes it, and an echoed argument that is not
      ASCII is announced with its characters and sent with its bytes. */
  lemma ReplyReadableIff(args: Args)
    requires forall a :: a in args ==> IsText(a) && Short(a)
    ensures var r := ReplyFor(args).reply;
      Read(Print(r)) == Some(r) <==>
        && !(Arg(args, 0) != [] && !IsKnown(Upper(args[0])) && HasCrlf(args[0]))
        && IsAscii(Echoed(args))
  {
    hide Read, Print, ReplyFor, Broken, Short, Echoed, IsAscii, IsKnown, HasCrlf;
    BrokenIff(args);
    ReplyIsShort(args);
    ReadPrintIff(ReplyFor(args).reply);
  }

  /** A reply to a known command other than PING and CONFIG. */
  lemma CannedReply(args: Args)
    requires Arg(args, 0) != [] && IsKnown(Upper(args[0]))
    requires Upper(args[0]) != Ascii("PING") && Upper(args[0]) != Ascii("CONFIG")
    ensures ReplyFor(args).reply in
      {Error(Ascii(NO_PASSWORD)), Bulk(Ascii(INFO)), EmptyArray, Simple(Ascii("OK")), Nil}
  {
    hide Ascii, Upper;
  }

  lemma UnknownReply(args: Args)
    requires Arg(args, 0) != [] && !IsKnown(Upper(args[0]))
    ensures ReplyFor(args).reply == Error(UnknownCommand(args[0]))
    ensures Upper(args[0]) != Ascii("PING") && Upper(args[0]) != Ascii("CONFIG")
  {
    hide Ascii, Upper;
  }

  lemma KnownPair()
    ensures IsKnown(Ascii("PING")) && IsKnown(Ascii("CONFIG"))
    ensures Ascii("PING") != Ascii("CONFIG") && Ascii("CONFIG") != Ascii("SELECT")
    ensures Ascii("PING") != [] && Ascii("CONFIG") != []
  {
    assert Ascii("CONFIG")[0] == 67 && Ascii("SELECT")[0] == 83;
    hide Ascii;
  }

  lemma BrokenIff(args: Args)
    requires forall a :: a in args ==> IsText(a)
    ensures Broken(ReplyFor(args).reply) <==>
      || (Arg(args, 0) != [] && !IsKnown(Upper(args[0])) && HasCrlf(args[0]))
      || !IsAscii(Echoed(args))
  {
    KnownPair();
    hide Ascii, Upper, HasCrlf, IsText, IsAscii, UnknownCommand, IsKnown, ReplyFor, Broken, Echoed;
    if Arg(args, 0) == [] {
      NoNameBroken(args);
    } else if Upper(args[0]) == Ascii("PING") {
      PingBroken(args);
    } else if Upper(args[0]) == Ascii("CONFIG") {
      ConfigBroken(args);
    } else if IsKnown(Upper(args[0])) {
      CannedBroken(args);
    } else {
      UnknownBroken(args);
    }
  }

  lemma NothingEchoed(args: Args)
    requires Upper(Arg(args, 0)) != Ascii("PING") && Upper(Arg(args, 0)) != Ascii("CONFIG")
    ensures IsAscii(Echoed(args))
  {
    EmptyText();
    hide Ascii, Upper, IsAscii;
  }

  lemma NoNameBroken(args: Args)
    requires Arg(args, 0) == []
    ensures !Broken(ReplyFor(args).reply) && IsAscii(Echoed(args))
  {
    UpperOfEmpty();
    KnownPair();
    NothingEchoed(args);
    CannedLines();
    hide Ascii, Upper, HasCrlf, IsAscii, Echoed;
  }

  lemma CannedBroken(args: Args)
    requires Arg(args, 0) != [] && IsKnown(Upper(args[0]))
    requires Upper(args[0]) != Ascii("PING") && Upper(args[0]) != Ascii("CONFIG")
    ensures !Broken(ReplyFor(args).reply) && IsAscii(Echoed(args))
  {
    NothingEchoed(args);
    CannedReply(args);
    CannedLines();
    ShortTexts([]);
    hide Ascii, Upper, HasCrlf, Wide, IsAscii, Echoed, IsKnown, ReplyFor;
  }

  lemma UnknownBroken(args: Args)
    requires Arg(args, 0) != [] && !IsKnown(Upper(args[0]))
    ensures Broken(ReplyFor(args).reply) <==> HasCrlf(args[0])
    ensures IsAscii(Echoed(args))
  {
    UnknownReply(args);
    NothingEchoed(args);
    UnknownHasCrlf(args[0]);
    hide Ascii, Upper, HasCrlf, IsAscii, Echoed, IsKnown, ReplyFor, UnknownCommand;
  }

  lemma PingBroken(args: Args)
    requires forall a :: a in args ==> IsText(a)
    requires Arg(args, 0) != [] && Upper(args[0]) == Ascii("PING")
    ensures Broken(ReplyFor(args).reply) <==> !IsAscii(Echoed(args))
  {
    KnownPair();
    CannedLines();
    EmptyText();
    hide Ascii, Upper, HasCrlf, Wide, IsText, IsAscii, ConfigReply, IsKnown;
    WideIff(Arg(args, 1));
  }

  lemma ConfigBroken(args: Args)
    requires forall a :: a in args ==> IsText(a)
    requires Arg(args, 0) != [] && Upper(args[0]) == Ascii("CONFIG")
    ensures Broken(ReplyFor(args).reply) <==> !IsAscii(Echoed(args))
  {
    ConfigIsReply(args);
    EchoedByConfig(args);
    hide Ascii, Upper, IsText, ReplyFor, Echoed, IsAscii, ConfigReply, Broken;
    EmptyText();
    ConfigReplyBroken(args);
  }

  lemma EchoedByConfig(args: Args)
    requires Arg(args, 0) != [] && Upper(args[0]) == Ascii("CONFIG")
    ensures Echoed(args) == if Upper(Arg(args, 1)) == Ascii("GET") then Arg(args, 2) else []
  {
    KnownPair();
    hide Ascii, Upper;
  }

  lemma ConfigReplyBroken(args: Args)
    requires forall a :: a in args ==> IsText(a)
    ensures Broken(ConfigReply(args).reply) <==> Upper(Arg(args, 1)) == Ascii("GET") && !IsAscii(Arg(args, 2))
  {
    CannedLines();
    ShortTexts(Arg(args, 2));
    EmptyText();
    hide Ascii, Upper, Lower, HasCrlf, Wide, IsText, IsAscii, ConfigValue;
    WideIff(Arg(args, 2));
  }

  lemma ConfigIsReply(args: Args)
    requires Arg(args, 0) != [] && Upper(args[0]) == Ascii("CONFIG")
    ensures ReplyFor(args) == ConfigReply(args)
  {
    KnownPair();
    hide Ascii, Upper, IsKnown, ConfigReply;
  }

  lemma ReplyIsShort(args: Args)
    requires forall a :: a in args ==> Short(a)
    ensures var r := ReplyFor(args).reply;
      (r.Bulk? ==> Short(r.text)) && (r.Pair? ==> Short(r.key) && Short(r.value))
  {
    ShortTexts(Arg(args, 2));
    KnownPair();
    hide Ascii, Upper, Lower, Short, ConfigValue;
    if Arg(args, 0) == [] {
    } else if Upper(args[0]) == Ascii("PING") {
    } else if Upper(args[0]) == Ascii("CONFIG") {
      ConfigIsReply(args);
      hide ReplyFor;
    } else if IsKnown(Upper(args[0])) {
      CannedReply(args);
      hide IsKnown, ReplyFor;
    } else {
      UnknownReply(args);
      hide IsKnown, ReplyFor;
    }
  }

  lemma WideIff(b: bytes)
    requires IsText(b)
    ensures Wide(b) <==> !IsAscii(b)
  {
    TextIsAsciiIff(b);
  }

  lemma EmptyText()
    ensures IsText([]) && IsAscii([]) && !Wide([])
  {
    assert EncodeText([]) == [];
  }

  lemma UpperOfEmpty()
    ensures Upper([]) == []
  {
  }

  /** `PING` with the two bytes of an accented e is answered with a bulk string of length 1. */
  lemma AccentUnreadable(args: Args)
    requires |args| == 2 && Upper(args[0]) == Ascii("PING") && args[1] == [0xC3, 0xA9]
    ensures IsText(args[1]) && Read(Print(ReplyFor(args).reply)) == None
  {
    Accent();
    SmallIsShort(args[1]);
    KnownPair();
    hide Read, Print, Ascii, Upper, Short, Wide, IsText;
    ReadBulkReply(args[1]);
    assert ReplyFor(args).reply == Bulk(args[1]);
  }

  lemma Accent()
    ensures IsText([0xC3, 0xA9]) && Wide([0xC3, 0xA9])
  {
    var e: bytes := [0xC3, 0xA9];
    var text: seq<Rune> := [0xE9];
    assert text[..0] == [] && EncodeText(text) == [] + e == e;
    TextCount(text);
  }

  lemma SmallIsShort(b: bytes)
    requires |b| < 1000
    ensures Short(b)
  {
    FewDigits(CharCount(b));
  }

  lemma {:induction false} FewDigits(n: nat)
    ensures |Decimal.Print(n)| <= n / 10 + 1
  {
    if n < 10 {
    } else {
      FewDigits(n / 10);
    }
  }

  lemma AsciiText(s: string)
    requires |s| < 1000
    ensures Short(Ascii(s)) && !Wide(Ascii(s))
  {
    SmallIsShort(Ascii(s));
    AsciiCount(Ascii(s));
  }

  lemma ShortTexts(key: bytes)
    ensures Short(Ascii(INFO)) && !Wide(Ascii(INFO)) && Short([])
    ensures Short(ConfigValue(key)) && !Wide(ConfigValue(key))
  {
    hide Ascii;
    AsciiText(INFO);
    AsciiText("/var/lib/redis");
    AsciiText("dump.rdb");
    SmallIsShort([]);
  }

  // ---- what each command is answered -----------------------------------------------------

  lemma AsciiBytes(s: string)
    requires forall c :: c in s ==> c < 128 as char
    ensures forall i :: 0 <= i < |s| ==> Ascii(s)[i] == s[i] as int
  {
    assert forall i :: 0 <= i < |s| ==> s[i] in s;
  }

  /** `b` is `word`, letters in either case. No character beyond ASCII has one of these letters as its
      lower case. */
  predicate Folds(b: bytes, word: string) {
    |b| == |word| && forall i :: 0 <= i < |b| ==> word[i] as int - b[i] in {0, 32}
  }

  /** CONFIG SET of the directory or the name of the dump file. */
  predicate SetsDropPath(args: Args) {
    && |args| >= 3 && Upper(args[0]) == Ascii("CONFIG") && Upper(args[1]) == Ascii("SET")
    && (Folds(args[2], "dir") || Folds(args[2], "dbfilename"))
  }

  lemma LowerIs(b: bytes, word: string)
    requires forall c :: c in word ==> 'a' <= c <= 'z'
    ensures Lower(b) == Ascii(word) <==> Folds(b, word)
  {
    assert forall i :: 0 <= i < |word| ==> word[i] in word;
    AsciiBytes(word);
    hide Ascii;
    if Lower(b) == Ascii(word) {
      forall i | 0 <= i < |b| ensures word[i] as int - b[i] in {0, 32} {
        assert Lower(b)[i] == word[i] as int;
      }
    }
  }

  lemma ShortWords()
    ensures Upper([]) != Ascii("SET") && Ascii("SET") != Ascii("GET")
    ensures !Folds([], "dir") && !Folds([], "dbfilename")
  {
    assert Ascii("SET")[0] == 83 && Ascii("GET")[0] == 71;
  }

  /** The flag of an attempt to drop a file is set for exactly these commands. */
  lemma RceIff(args: Args)
    ensures ReplyFor(args).rce <==> SetsDropPath(args)
  {
    LowerIs(Arg(args, 2), "dir");
    LowerIs(Arg(args, 2), "dbfilename");
    ShortWords();
    NoWord();
    KnownPair();
    hide Ascii, Upper, Lower, Folds;
  }

  lemma NoWord()
    ensures Upper([]) != Ascii("CONFIG") && Upper([]) != Ascii("QUIT")
  {
  }

  /** The connection's inner loop ends for exactly this command. */
  lemma CloseIff(args: Args)
    ensures ReplyFor(args).close <==> |args| >= 1 && Upper(args[0]) == Ascii("QUIT")
  {
    NoWord();
    QuitIsAlone();
    hide Ascii, Upper, Lower;
  }

  lemma QuitIsAlone()
    ensures forall w :: w in {"PING", "AUTH", "INFO", "COMMAND", "SELECT", "CONFIG", "GET"} ==> Ascii(w) != Ascii("QUIT")
    ensures Ascii("QUIT") !in OK_COMMANDS
  {
    assert Ascii("QUIT")[0] == 81 && Ascii("PING")[0] == 80 && Ascii("AUTH")[0] == 65;
    assert Ascii("INFO")[0] == 73 && Ascii("SAVE")[0] == 83;
  }

  const OK_LINE: bytes := [43, 79, 75, 13, 10]
  const PONG_LINE: bytes := [43, 80, 79, 78, 71, 13, 10]

  lemma Lines()
    ensures [PLUS] + Ascii("OK") + CRLF == OK_LINE && [PLUS] + Ascii("PONG") + CRLF == PONG_LINE
  {
  }

  /** What goes on the wire for the commands whose reply does not depend on their arguments. */
  lemma CannedAnswers(args: Args)
    requires |args| >= 1
    ensures var (cmd, wire) := (Upper(args[0]), Print(ReplyFor(args).reply));
      && (cmd == Ascii("PING") ==> wire == if |args| == 1 then PONG_LINE else PrintBulk(args[1]))
      && (cmd == Ascii("AUTH") ==> wire == [45] + Ascii(NO_PASSWORD) + CRLF)
      && (cmd == Ascii("INFO") ==> wire == PrintBulk(Ascii(INFO)))
      && (cmd == Ascii("COMMAND") ==> wire == [42, 48, 13, 10])
      && (cmd == Ascii("GET") ==> wire == [36, 45, 49, 13, 10])
      && (IsOkWord(cmd) ==> wire == OK_LINE)
  {
    Lines();
    WordHeads();
    UpperOfEmpty();
    hide Ascii, Upper, Lower, PrintBulk, ConfigReply;
  }

  predicate IsOkWord(cmd: bytes) {
    || cmd in {Ascii("SELECT"), Ascii("QUIT"), Ascii("SET"), Ascii("RENAME"), Ascii("RENAMENX")}
    || cmd in {Ascii("FLUSHALL"), Ascii("FLUSHDB"), Ascii("SAVE"), Ascii("BGSAVE")}
  }

  /** No two of the words agree in length and first letter. */
  lemma WordHeads()
    ensures Ascii("PING")[0] == 80
    ensures Ascii("AUTH")[0] == 65
    ensures Ascii("INFO")[0] == 73
    ensures Ascii("COMMAND")[0] == 67
    ensures Ascii("SELECT")[0] == 83
    ensures Ascii("CONFIG")[0] == 67
    ensures Ascii("GET")[0] == 71
    ensures Ascii("QUIT")[0] == 81
    ensures Ascii("SET")[0] == 83
    ensures Ascii("RENAME")[0] == 82
    ensures Ascii("RENAMENX")[0] == 82
    ensures Ascii("FLUSHALL")[0] == 70
    ensures Ascii("FLUSHDB")[0] == 70
    ensures Ascii("SAVE")[0] == 83
    ensures Ascii("BGSAVE")[0] == 66
  {
  }

  /** CONFIG GET answers with the key and, for the two keys that are probed, a path. */
  lemma ConfigAnswers(args: Args)
    requires |args| >= 2 && Upper(args[0]) == Ascii("CONFIG")
    ensures var (sub, key, wire) := (Upper(args[1]), Arg(args, 2), Print(ReplyFor(args).reply));
      if sub != Ascii("GET") then wire == OK_LINE
      else wire == [42, 50, 13, 10] + PrintBulk(key) + PrintBulk(
        if key == Ascii("dir") then Ascii("/var/lib/redis") else if key == Ascii("dbfilename") then Ascii("dump.rdb") else [])
  {
    Lines();
    NoWord();
    ConfigIsReply(args);
    hide Ascii, Upper, Lower, PrintBulk, ReplyFor;
  }

  /** Any other name is echoed in an error. */
  lemma OtherAnswers(args: Args)
    requires |args| >= 1 && args[0] != []
    requires Upper(args[0]) !in {Ascii("PING"), Ascii("AUTH"), Ascii("INFO"), Ascii("COMMAND"), Ascii("GET"), Ascii("CONFIG")}
    requires !IsOkWord(Upper(args[0]))
    ensures Print(ReplyFor(args).reply) == [45] + Ascii("ERR unknown command '") + args[0] + Ascii("'") + CRLF
  {
    hide Ascii, Upper, Lower;
  }
}

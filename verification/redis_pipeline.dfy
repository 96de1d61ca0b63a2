/** What the Redis honeypot records of a client that pipelines well-formed commands,
    and two inputs on which the loop does something else. */
module RedisPipeline {
  import opened Bytes
  import opened Numbers
  import opened RespProtocol
  import opened RedisSession
  import opened Utf8
  import RespReplies

  function EncodeAll(cmds: seq<Args>): bytes {
    if cmds == [] then [] else Encode(cmds[0]) + EncodeAll(cmds[1..])
  }

  function First(cmds: seq<Args>, n: nat): seq<Args> {
    if |cmds| <= n then cmds else cmds[..n]
  }

  /** The read that brings a command's last byte, and what it brings behind it, finds room. */
  predicate Sendable(cmds: seq<Args>)
    decreases |cmds|
  {
    cmds == [] ||
    (Encodable(cmds[0]) && Sendable(cmds[1..]) &&
     |Encode(cmds[0])| + Min(READ_SIZE - 1, |EncodeAll(cmds[1..])|) <= MAX_BUFFER)
  }

  /** A command that has not arrived completely is not parsed. */
  lemma UnfinishedCommand(args: Args, k: nat)
    requires Encodable(args) && k < |Encode(args)|
    ensures Parse(Encode(args)[..k]).Incomplete?
  {
    hide Parse, ReachesBack, Encode, Encodable;
    var p, more := Encode(args)[..k], Encode(args)[k..];
    RoundTrip(args, []);
    assert Encode(args) + [] == Encode(args) == p + more;
    if ReachesBack(p) {
      ReachMore(p, more);
    }
    if Parse(p).Command? {
      ParseStable(p, more);
    }
  }

  lemma {:induction false} PipelineFrames(cmds: seq<Args>, room: nat)
    requires Sendable(cmds)
    ensures Clean(EncodeAll(cmds), room) && Frames(EncodeAll(cmds), room) == First(cmds, room)
    decreases |cmds|
  {
    hide Parse, ReachesBack, Encode, Encodable, Frames, Clean;
    if cmds == [] || room == 0 {
      EmptyBuffer();
      NothingFramed(EncodeAll(cmds), room);
    } else {
      RoundTrip(cmds[0], EncodeAll(cmds[1..]));
      PipelineFrames(cmds[1..], room - 1);
      FirstFramed(EncodeAll(cmds), cmds[0], EncodeAll(cmds[1..]), room);
    }
  }

  lemma NothingFramed(s: bytes, room: nat)
    requires room == 0 || (Parse(s).Incomplete? && !ReachesBack(s))
    ensures Clean(s, room) && Frames(s, room) == []
  {
    hide Parse, ReachesBack;
  }

  lemma FirstFramed(s: bytes, args: Args, rest: bytes, room: nat)
    requires room > 0 && Parse(s) == Command(args, rest) && !ReachesBack(s)
    ensures Clean(s, room) == Clean(rest, room - 1) && Frames(s, room) == [args] + Frames(rest, room - 1)
  {
    hide Parse, ReachesBack;
  }

  lemma EmptyBuffer()
    ensures Parse([]).Incomplete? && !ReachesBack([])
  {
  }

  lemma {:induction false} PipelineFitsAt(cmds: seq<Args>, k: nat, room: nat)
    requires Sendable(cmds) && k <= |EncodeAll(cmds)|
    ensures FitsAt(EncodeAll(cmds)[..k], |EncodeAll(cmds)| - k, room)
    decreases |cmds|
  {
    hide Parse, ReachesBack, Encode, Encodable;
    var p := EncodeAll(cmds)[..k];
    if cmds == [] {
      EmptyBuffer();
    } else if k < |Encode(cmds[0])| {
      UnfinishedCommand(cmds[0], k);
      assert p == Encode(cmds[0])[..k];
    } else if room > 0 {
      var later := EncodeAll(cmds[1..])[..k - |Encode(cmds[0])|];
      assert p == Encode(cmds[0]) + later;
      RoundTrip(cmds[0], later);
      PipelineFitsAt(cmds[1..], k - |Encode(cmds[0])|, room - 1);
    }
  }

  /** End to end: the commands a client encodes are the commands recorded, in order and up to the
      cap, whatever bytes they contain and however the network cuts them. */
  lemma PipelineRecorded(cmds: seq<Args>, chunks: seq<bytes>, limit: nat)
    requires Sendable(cmds) && QuitOnlyLast(First(cmds, limit))
    requires IsChunking(chunks, EncodeAll(cmds))
    ensures Session([], chunks, limit) == First(cmds, limit)
  {
    hide Clean, Frames, Fits, Session, Sendable, QuitOnlyLast, IsChunking;
    PipelineFrames(cmds, limit);
    PipelineFits(cmds, limit);
    ChunkInvariance(EncodeAll(cmds), chunks, limit);
  }

  lemma PipelineFits(cmds: seq<Args>, limit: nat)
    requires Sendable(cmds)
    ensures Fits([], EncodeAll(cmds), limit)
  {
    hide Sendable, FitsAt, EncodeAll;
    var s := EncodeAll(cmds);
    forall k | 0 <= k <= |s| ensures FitsAt([] + s[..k], |s| - k, limit) {
      PipelineFitsAt(cmds, k, limit);
      assert [] + s[..k] == s[..k];
    }
  }

  lemma SendableDrain(cmd: Args, rest: bytes, room: nat)
    requires Encodable(cmd) && room > 0
    ensures Closes(cmd) ==> Drain(Encode(cmd) + rest, room) == ([cmd], rest)
    ensures rest == [] ==> Drain(Encode(cmd) + rest, room) == ([cmd], [])
  {
    hide Parse, ReachesBack, Encode, Encodable, Closes;
    RoundTrip(cmd, rest);
    EmptyBuffer();
    assert rest == [] ==> Drain(rest, room - 1) == ([], []);
    assert [cmd] + [] == [cmd];
  }

  lemma SessionOfOne(buf: bytes, chunk: bytes, room: nat)
    requires room > 0 && chunk != [] && |buf + chunk| <= MAX_BUFFER
    ensures Session(buf, [chunk], room) == Drain(buf + chunk, room).0
  {
    hide Drain;
    var chunks: seq<bytes> := [chunk];
    assert chunks[1..] == [];
  }

  lemma SessionOfTwo(first: bytes, second: bytes, room: nat)
    requires room > 0 && first != [] && |first| <= MAX_BUFFER
    ensures var (log, left) := Drain(first, room);
      Session([], [first, second], room) == log + Session(left, [second], room - |log|)
  {
    hide Drain;
    assert [] + first == first;
    assert [first, second][1..] == [second];
  }

  /** End to end: of a pipeline that is recorded, `Serve` counts exactly the commands that set the
      directory or the name of the dump file. */
  lemma AttemptsRecorded(cmds: seq<Args>, chunks: seq<bytes>, limit: nat)
    requires Sendable(cmds) && QuitOnlyLast(First(cmds, limit))
    requires IsChunking(chunks, EncodeAll(cmds))
    ensures RceCount(Session([], chunks, limit)) ==
      |set i: nat | i < Min(limit, |cmds|) && RespReplies.SetsDropPath(cmds[i])|
  {
    hide Session, Sendable, QuitOnlyLast, IsChunking, RespReplies.SetsDropPath;
    PipelineRecorded(cmds, chunks, limit);
    RceCountIsAttempts(First(cmds, limit));
    assert Attempts(First(cmds, limit)) ==
      set i: nat | i < Min(limit, |cmds|) && RespReplies.SetsDropPath(cmds[i]);
  }

  /** A command pipelined behind QUIT is recorded if it comes in a later read and lost otherwise. */
  lemma QuitDependsOnTheCut(quit: Args, cmd: Args, limit: nat)
    requires Encodable(quit) && Encodable(cmd) && |Encode(quit)| + |Encode(cmd)| <= READ_SIZE
    requires Closes(quit) && limit >= 2
    ensures var (q, c) := (Encode(quit), Encode(cmd));
      && Session([], [q + c], limit) == [quit]
      && Session([], [q, c], limit) == [quit, cmd]
  {
    hide Drain, Session, Encodable, Closes, Parse;
    var q, c := Encode(quit), Encode(cmd);
    hide Encode;
    assert [] + (q + c) == q + c && [] + c == c == c + [] && q == q + [];
    SendableDrain(quit, c, limit);
    SendableDrain(quit, [], limit);
    SendableDrain(cmd, [], limit - 1);
    SessionOfOne([], q + c, limit);
    SessionOfOne([], c, limit - 1);
    SessionOfTwo(q, c, limit);
  }

  // "quit", with a dotless i
  const DOTLESS_QUIT: bytes := [0x71, 0x75, 0xC4, 0xB1, 0x74]

  lemma DotlessUpper()
    ensures Upper(DOTLESS_QUIT) == RespReplies.Ascii("QUIT")
  {
    hide Upper;
    UpperLetters(0x71, 0x75, 0x74);
  }

  lemma UpperLetters(q: byte, u: byte, t: byte)
    requires 97 <= q <= 122 && 97 <= u <= 122 && 97 <= t <= 122
    ensures Upper([q, u, 0xC4, 0xB1, t]) == [q - 32, u - 32, 73, t - 32]
  {
    hide Upper;
    var it: bytes := [0xC4, 0xB1, t];
    UpperEnd(t);
    UpperLetter(u, it);
    UpperLetter(q, [u] + it);
    assert [q] + ([u] + it) == [q, u, 0xC4, 0xB1, t];
  }

  lemma UpperEnd(t: byte)
    requires 97 <= t <= 122
    ensures Upper([0xC4, 0xB1, t]) == [73, t - 32]
  {
    assert Upper([]) == [];
    hide Upper;
    UpperLetter(t, []);
    UpperDotless([t]);
    assert [t] + [] == [t] && [0xC4, 0xB1] + [t] == [0xC4, 0xB1, t];
  }

  lemma UpperLetter(c: byte, rest: bytes)
    requires 97 <= c <= 122
    ensures Upper([c] + rest) == [c - 32] + Upper(rest)
  {
    hide Upper;
    UpperOfRune(c, rest);
  }

  lemma UpperDotless(rest: bytes)
    ensures Upper([0xC4, 0xB1] + rest) == [73] + Upper(rest)
  {
    hide Upper;
    UpperOfRune(0x131, rest);
  }

  /** A dotless i becomes an ASCII letter in upper case, so that this name is a QUIT as well. */
  lemma DotlessQuit(cmd: Args, limit: nat)
    requires Encodable(cmd) && |Encode([DOTLESS_QUIT])| + |Encode(cmd)| <= READ_SIZE && limit >= 2
    ensures Closes([DOTLESS_QUIT])
    ensures Session([], [Encode([DOTLESS_QUIT]) + Encode(cmd)], limit) == [[DOTLESS_QUIT]]
  {
    DotlessUpper();
    DotlessCloses();
    assert Encodable([DOTLESS_QUIT]);
    hide Encode, Session, Encodable, Closes, Upper;
    QuitDependsOnTheCut([DOTLESS_QUIT], cmd, limit);
  }

  lemma DotlessCloses()
    requires Upper(DOTLESS_QUIT) == RespReplies.Ascii("QUIT")
    ensures Closes([DOTLESS_QUIT])
  {
    hide Upper;
    var quit := RespReplies.Ascii("QUIT");
    assert quit[0] == 81 && RespReplies.Ascii("PING")[0] == 80 && RespReplies.Ascii("AUTH")[0] == 65;
    assert RespReplies.Ascii("INFO")[0] == 73 && RespReplies.Ascii("SAVE")[0] == 83;
  }

  // "*1 CRLF $-12 CRLF"
  const STUCK: bytes := [42, 49, 13, 10, 36, 45, 49, 50, 13, 10]

  /** A bulk length of -12 here leads back to the start: the command is finished, nothing is
      consumed, and the loop records it until the cap. */
  lemma StuckOnNegativeLength(limit: nat)
    ensures Parse(STUCK) == Command([[]], STUCK) && ReachesBack(STUCK)
    ensures var log := Session([], [STUCK], limit); |log| == limit && forall a :: a in log ==> a == [[]]
  {
    hide Parse, ReachesBack, Drain, Session;
    StuckParse();
    StuckDrain(limit);
    assert [] + STUCK == STUCK;
    if limit > 0 {
      SessionOfOne([], STUCK, limit);
    } else {
      SessionEnds([], [STUCK], limit);
    }
  }

  lemma {:induction false} StuckDrain(room: nat)
    requires Parse(STUCK) == Command([[]], STUCK)
    ensures var log := Drain(STUCK, room).0; |log| == room && forall a :: a in log ==> a == [[]]
    decreases room
  {
    hide Parse;
    if room == 0 {
    } else {
      assert !Closes([[]]);
      StuckDrain(room - 1);
    }
  }

  lemma StuckParse()
    ensures Parse(STUCK) == Command([[]], STUCK) && ReachesBack(STUCK)
  {
    StuckBulk();
    hide ReadBulk, Decimal.ParseInt, FindCrlf, Slice;
    StuckHeader();
    assert From(STUCK, 0) == STUCK;
  }

  lemma StuckHeader()
    ensures FindCrlf(STUCK, 0) == 2 && Decimal.ParseInt(Slice(STUCK, 1, 2)) == Some(1)
  {
    FindCrlfUnique(STUCK, 0, 2);
    assert Slice(STUCK, 1, 2) == [49];
    assert Decimal.Print(1) == [49];
    hide Decimal.ParseInt;
    Decimal.ParseIntOfPrint(1);
  }

  lemma StuckBulk()
    ensures ReadBulk(STUCK, 4) == Body([], -2)
  {
    FindCrlfUnique(STUCK, 4, 8);
    assert Slice(STUCK, 5, 8) == [45, 49, 50];
    MinusTwelve();
    hide Decimal.ParseInt, FindCrlf;
  }

  lemma MinusTwelve()
    ensures Decimal.ParseInt([45, 49, 50]) == Some(-12)
  {
    var d: bytes := [49, 50];
    assert [45, 49, 50][1..] == d;
    assert d[..1] == [49] && d[..1][..0] == [];
    assert Decimal.Value([49]) == 1;
    assert Decimal.Value(d) == 12;
    assert Decimal.TrimLeft([45, 49, 50]) == [45, 49, 50];
  }
}

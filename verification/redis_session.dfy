/** The read and drain loop of one Redis connection (services/redis_honeypot/__main__.py). */
module RedisSession {
  import opened Bytes
  import opened Numbers
  import opened RespProtocol
  import opened Sets
  import RespReplies

  const MAX_BUFFER := 64 * 1024
  const READ_SIZE := 4096

  /** The `should_close` flag of the reply. */
  predicate Closes(args: Args) {
    RespReplies.ReplyFor(args).close
  }

  /** The `is_rce_attempt` flag of the reply. */
  predicate IsRce(args: Args) {
    RespReplies.ReplyFor(args).rce
  }

  function RceCount(log: seq<Args>): nat {
    if log == [] then 0 else RceCount(log[..|log| - 1]) + if IsRce(log[|log| - 1]) then 1 else 0
  }

  /** The positions of the commands that try to drop a file. */
  function Attempts(log: seq<Args>): set<nat> {
    set i: nat | i < |log| && RespReplies.SetsDropPath(log[i])
  }

  lemma {:induction false} RceCountIsAttempts(log: seq<Args>)
    ensures RceCount(log) == |Attempts(log)|
  {
    hide RespReplies.SetsDropPath, IsRce;
    if log == [] {
    } else {
      var init, last := log[..|log| - 1], |log| - 1;
      RceCountIsAttempts(init);
      IsRceIff(log[last]);
      OneMorePosition(Attempts(init), Attempts(log), last);
    }
  }

  lemma IsRceIff(args: Args)
    ensures IsRce(args) <==> RespReplies.SetsDropPath(args)
  {
    RespReplies.RceIff(args);
    hide RespReplies.SetsDropPath, RespReplies.ReplyFor;
  }

  // ---- specification -------------------------------------------------------

  /** The first `room` commands of a stream that is available as a whole. */
  function Frames(s: bytes, room: nat): seq<Args>
    decreases room
  {
    if room == 0 then []
    else match Parse(s)
      case Incomplete => []
      case Command(args, rest) => [args] + Frames(rest, room - 1)
  }

  /** What is left of the stream behind those commands. */
  function Residue(s: bytes, room: nat): bytes
    decreases room
  {
    if room == 0 then s
    else match Parse(s)
      case Incomplete => s
      case Command(args, rest) => Residue(rest, room - 1)
  }

  /** The inner loop: drain complete commands, stopping after QUIT or at the command cap. */
  function Drain(buf: bytes, room: nat): (r: (seq<Args>, bytes))
    ensures |r.0| <= room
    decreases room
  {
    if room == 0 then ([], buf)
    else match Parse(buf)
      case Incomplete => ([], buf)
      case Command(args, rest) =>
        if Closes(args) then ([args], rest)
        else
          var (more, left) := Drain(rest, room - 1);
          ([args] + more, left)
  }

  function Trim(buf: bytes): bytes {
    if |buf| > MAX_BUFFER then buf[|buf| - MAX_BUFFER..] else buf
  }

  /** The commands recorded from now on: `buf` is pending, `chunks` are the reads still to come. */
  function Session(buf: bytes, chunks: seq<bytes>, room: nat): seq<Args>
    decreases |chunks|
  {
    if room == 0 || chunks == [] || chunks[0] == [] then []
    else
      var (log, left) := Drain(Trim(buf + chunks[0]), room);
      log + Session(left, chunks[1..], room - |log|)
  }

  lemma SessionStep(log: seq<Args>, buf: bytes, chunks: seq<bytes>, room: nat)
    requires room > 0 && chunks != [] && chunks[0] != []
    ensures var (drained, left) := Drain(Trim(buf + chunks[0]), room);
      log + Session(buf, chunks, room) == (log + drained) + Session(left, chunks[1..], room - |drained|)
  {
    hide Drain, Trim;
  }

  lemma SessionEnds(buf: bytes, chunks: seq<bytes>, room: nat)
    requires room == 0 || chunks == [] || chunks[0] == []
    ensures Session(buf, chunks, room) == []
  {
  }

  // ---- the loop as written ---------------------------------------------------

  /** `chunks` are the results of the reads up to the end of the connection. */
  method Serve(chunks: seq<bytes>, maxCommands: nat) returns (log: seq<Args>, rceAttempts: nat)
    ensures log == Session([], chunks, maxCommands)
    ensures rceAttempts == |Attempts(log)| && |log| <= maxCommands
  {
    hide Parse, Drain, IsRce, Session;
    assert Session([], chunks, maxCommands) == [] + Session([], chunks[0..], maxCommands);
    var buf: bytes := [];
    log, rceAttempts := [], 0;
    var next := 0;
    while |log| < maxCommands
      invariant next <= |chunks| && |log| <= maxCommands && rceAttempts == RceCount(log)
      invariant log + Session(buf, chunks[next..], maxCommands - |log|) == Session([], chunks, maxCommands)
      decreases |chunks| - next
    {
      if next == |chunks| { break; }
      var chunk := chunks[next];
      if chunk == [] { break; }
      SessionStep(log, buf, chunks[next..], maxCommands - |log|);
      assert chunks[next..][1..] == chunks[next + 1..];
      next := next + 1;
      buf := buf + chunk;
      if |buf| > MAX_BUFFER { buf := buf[|buf| - MAX_BUFFER..]; }
      log, rceAttempts, buf := DrainBuffer(log, rceAttempts, buf, maxCommands);
      if |log| >= maxCommands { break; }
    }
    SessionEnds(buf, chunks[next..], maxCommands - |log|);
    RceCountIsAttempts(log);
  }

  /** The inner loop of `Serve`: `log` and `rceAttempts` are its counters on entry. */
  method DrainBuffer(log: seq<Args>, rceAttempts: nat, buf: bytes, maxCommands: nat)
    returns (log': seq<Args>, rceAttempts': nat, buf': bytes)
    requires |log| < maxCommands && rceAttempts == RceCount(log)
    ensures var drained := Drain(buf, maxCommands - |log|); log' == log + drained.0 && buf' == drained.1
    ensures rceAttempts' == RceCount(log')
  {
    hide Parse, IsRce, Closes;
    log', rceAttempts', buf' := log, rceAttempts, buf;
    ghost var drained := Drain(buf, maxCommands - |log|);
    while true
      invariant |log| <= |log'| < maxCommands && rceAttempts' == RceCount(log')
      invariant log' + Drain(buf', maxCommands - |log'|).0 == log + drained.0
      invariant Drain(buf', maxCommands - |log'|).1 == drained.1
      decreases maxCommands - |log'|
    {
      var parsed := ParseCommand(buf');
      if parsed.Incomplete? { break; }
      buf' := parsed.rest;
      if IsRce(parsed.args) { rceAttempts' := rceAttempts' + 1; }
      assert (log' + [parsed.args])[..|log'|] == log';
      log' := log' + [parsed.args];
      if Closes(parsed.args) || |log'| >= maxCommands { break; }
    }
  }

  // ---- how TCP cut the stream does not matter ----------------------------------

  /** `chunks` is one of the ways in which the reads can deliver `s`. */
  predicate IsChunking(chunks: seq<bytes>, s: bytes) {
    Concat(chunks) == s && forall c :: c in chunks ==> 1 <= |c| <= READ_SIZE
  }

  /** None of the first `room` frames holds a bulk length that points before its start. */
  predicate Clean(s: bytes, room: nat)
    decreases room
  {
    room == 0 || (!ReachesBack(s) && (Parse(s).Command? ==> Clean(Parse(s).rest, room - 1)))
  }

  predicate QuitOnlyLast(log: seq<Args>) {
    forall i :: 0 <= i < |log| - 1 ==> !Closes(log[i])
  }

  /** No read makes the buffer overflow. */
  predicate Untrimmed(buf: bytes, chunks: seq<bytes>, room: nat)
    decreases |chunks|
  {
    room == 0 || chunks == [] || chunks[0] == [] ||
    (|buf + chunks[0]| <= MAX_BUFFER &&
     var (log, left) := Drain(buf + chunks[0], room);
     Untrimmed(left, chunks[1..], room - |log|))
  }

  /** Up to the command cap, every unfinished frame leaves room for the next read. */
  predicate Fits(buf: bytes, s: bytes, room: nat) {
    forall k :: 0 <= k <= |s| ==> FitsAt(buf + s[..k], |s| - k, room)
  }

  /** `ahead` bytes are still to come. */
  predicate FitsAt(s: bytes, ahead: nat, room: nat) {
    |Frames(s, room)| < room ==> |Residue(s, room)| + Min(READ_SIZE, ahead) <= MAX_BUFFER
  }

  /** The first frame of a clean stream stays what it is when more bytes follow. */
  lemma CleanStep(buf: bytes, more: bytes, room: nat)
    requires room > 0 && Clean(buf + more, room) && Parse(buf).Command?
    ensures var (args, rest) := (Parse(buf).args, Parse(buf).rest);
      Parse(buf + more) == Command(args, rest + more) && Clean(rest + more, room - 1) && !ReachesBack(buf)
  {
    hide Parse, ReachesBack;
    if ReachesBack(buf) {
      ReachMore(buf, more);
    }
    ParseStable(buf, more);
  }

  /** Draining can pause at any point of the stream; the drained commands are its first frames. */
  lemma {:induction false} DrainSplit(buf: bytes, more: bytes, room: nat)
    requires Clean(buf + more, room)
    ensures var (log, left) := Drain(buf, room);
      && Frames(buf + more, room) == log + Frames(left + more, room - |log|)
      && Residue(buf + more, room) == Residue(left + more, room - |log|)
      && Clean(left + more, room - |log|)
    decreases room
  {
    hide Parse, Closes, Clean;
    if room > 0 && Parse(buf).Command? {
      hide Frames, Residue;
      var (args, rest) := (Parse(buf).args, Parse(buf).rest);
      CleanStep(buf, more, room);
      FirstFrame(buf + more, args, rest + more, room);
      DrainSplit(rest, more, room - 1);
    }
  }

  lemma FirstFrame(s: bytes, args: Args, rest: bytes, room: nat)
    requires room > 0 && Parse(s) == Command(args, rest)
    ensures Frames(s, room) == [args] + Frames(rest, room - 1) && Residue(s, room) == Residue(rest, room - 1)
  {
    hide Parse;
  }

  /** Without a QUIT before the last command, draining stops only for want of bytes or room. */
  lemma {:induction false} DrainAll(buf: bytes, room: nat)
    requires QuitOnlyLast(Frames(buf, room))
    ensures var (log, left) := Drain(buf, room);
      && log == Frames(buf, room) && left == Residue(buf, room)
      && (|log| == room || Parse(left).Incomplete?)
    decreases room
  {
    hide Parse, Closes;
    if room > 0 && Parse(buf).Command? {
      var frames, rest := Frames(buf, room), Parse(buf).rest;
      assert frames[1..] == Frames(rest, room - 1);
      forall i | 0 <= i < |frames[1..]| - 1 ensures !Closes(frames[1..][i]) {
        assert frames[1..][i] == frames[i + 1];
      }
      if Closes(frames[0]) {
        assert |frames| == 1;
      }
      DrainAll(rest, room - 1);
    }
  }

  lemma UntrimmedStep(buf: bytes, chunks: seq<bytes>, room: nat)
    requires room > 0 && chunks != [] && chunks[0] != [] && Untrimmed(buf, chunks, room)
    ensures var (log, left) := Drain(buf + chunks[0], room);
      && Session(buf, chunks, room) == log + Session(left, chunks[1..], room - |log|)
      && Untrimmed(left, chunks[1..], room - |log|)
      && buf + Concat(chunks) == (buf + chunks[0]) + Concat(chunks[1..])
  {
    hide Drain, Session, Untrimmed, Concat;
    UntrimmedUnfold(buf, chunks, room);
    SessionUnfold(buf, chunks, room);
    ConcatHead(buf, chunks);
  }

  lemma UntrimmedUnfold(buf: bytes, chunks: seq<bytes>, room: nat)
    requires room > 0 && chunks != [] && chunks[0] != [] && Untrimmed(buf, chunks, room)
    ensures |buf + chunks[0]| <= MAX_BUFFER
    ensures var (log, left) := Drain(buf + chunks[0], room); Untrimmed(left, chunks[1..], room - |log|)
  {
    hide Drain;
  }

  lemma SessionUnfold(buf: bytes, chunks: seq<bytes>, room: nat)
    requires room > 0 && chunks != [] && chunks[0] != [] && |buf + chunks[0]| <= MAX_BUFFER
    ensures var (log, left) := Drain(buf + chunks[0], room);
      Session(buf, chunks, room) == log + Session(left, chunks[1..], room - |log|)
  {
    hide Drain;
  }

  /** In every run without a trim, what is recorded is a prefix of the stream's frames. */
  lemma {:induction false} SessionIsPrefix(buf: bytes, chunks: seq<bytes>, room: nat) returns (lost: seq<Args>)
    requires Clean(buf + Concat(chunks), room) && Untrimmed(buf, chunks, room)
    ensures Frames(buf + Concat(chunks), room) == Session(buf, chunks, room) + lost
    decreases |chunks|
  {
    hide Drain, Clean, Frames, Parse, Untrimmed, Session, Concat, Residue;
    if room > 0 && chunks != [] && chunks[0] != [] {
      UntrimmedStep(buf, chunks, room);
      var (log, left) := Drain(buf + chunks[0], room);
      DrainSplit(buf + chunks[0], Concat(chunks[1..]), room);
      lost := SessionIsPrefix(left, chunks[1..], room - |log|);
    } else {
      SessionEnds(buf, chunks, room);
      lost := Frames(buf + Concat(chunks), room);
    }
  }

  lemma QuitOnlyLastPrefix(log: seq<Args>, more: seq<Args>)
    requires QuitOnlyLast(log + more)
    ensures QuitOnlyLast(log) && QuitOnlyLast(more)
  {
    forall i | 0 <= i < |log| - 1 ensures !Closes(log[i]) {
      assert log[i] == (log + more)[i];
    }
    forall i | 0 <= i < |more| - 1 ensures !Closes(more[i]) {
      assert more[i] == (log + more)[|log| + i];
    }
  }

  /** And without a QUIT before the last command it is all of them. */
  lemma {:induction false} SessionIsFrames(buf: bytes, chunks: seq<bytes>, room: nat)
    requires Clean(buf + Concat(chunks), room) && Untrimmed(buf, chunks, room)
    requires QuitOnlyLast(Frames(buf + Concat(chunks), room))
    requires room == 0 || Parse(buf).Incomplete?
    requires forall c :: c in chunks ==> c != []
    ensures Session(buf, chunks, room) == Frames(buf + Concat(chunks), room)
    decreases |chunks|
  {
    hide Drain, Clean, Parse, QuitOnlyLast, Untrimmed;
    if chunks == [] {
      assert buf + Concat(chunks) == buf;
    } else if room > 0 {
      assert chunks[0] in chunks && forall c :: c in chunks[1..] ==> c in chunks;
      UntrimmedStep(buf, chunks, room);
      var (log, left) := Drain(buf + chunks[0], room);
      var later := Concat(chunks[1..]);
      DrainSplit(buf + chunks[0], later, room);
      DrainStops(buf + chunks[0], later, room);
      QuitOnlyLastPrefix(log, Frames(left + later, room - |log|));
      SessionIsFrames(left, chunks[1..], room - |log|);
    }
  }

  lemma DrainStops(buf: bytes, more: bytes, room: nat)
    requires Clean(buf + more, room) && QuitOnlyLast(Frames(buf + more, room))
    ensures var (log, left) := Drain(buf, room);
      && (|log| == room || Parse(left).Incomplete?) && left == Residue(buf, room)
  {
    hide Parse, Clean, Drain, Frames, Residue, QuitOnlyLast;
    FramesSplit(buf, more, room);
    QuitOnlyLastPrefix(Frames(buf, room), Frames(Residue(buf, room) + more, room - |Frames(buf, room)|));
    DrainAll(buf, room);
  }

  /** Parsing can pause at any point of the stream. */
  lemma {:induction false} FramesSplit(buf: bytes, more: bytes, room: nat)
    requires Clean(buf + more, room)
    ensures var (log, left) := (Frames(buf, room), Residue(buf, room));
      && |log| <= room
      && Frames(buf + more, room) == log + Frames(left + more, room - |log|)
      && Residue(buf + more, room) == Residue(left + more, room - |log|)
      && Clean(left + more, room - |log|)
      && (room > |log| ==> Parse(left).Incomplete?)
    decreases room
  {
    hide Parse, ReachesBack;
    if room > 0 && Parse(buf).Command? {
      CleanStep(buf, more, room);
      hide Clean;
      FramesSplit(Parse(buf).rest, more, room - 1);
    }
  }

  lemma {:induction false} CleanPrefix(buf: bytes, more: bytes, room: nat)
    requires Clean(buf + more, room)
    ensures Clean(buf, room)
    decreases room
  {
    hide Parse, ReachesBack;
    if room == 0 {
    } else {
      if ReachesBack(buf) {
        ReachMore(buf, more);
      }
      if Parse(buf).Command? {
        ParseStable(buf, more);
        CleanPrefix(Parse(buf).rest, more, room - 1);
      }
    }
  }

  lemma {:induction false} ResidueShrinks(s: bytes, room: nat)
    requires Clean(s, room)
    ensures |Residue(s, room)| <= |s|
    decreases room
  {
    hide Parse, ReachesBack;
    if room > 0 && Parse(s).Command? {
      ParseStable(s, []);
      ResidueShrinks(Parse(s).rest, room - 1);
    }
  }

  lemma FitsLater(buf: bytes, more: bytes, room: nat)
    requires Clean(buf + more, room) && QuitOnlyLast(Frames(buf + more, room)) && Fits(buf, more, room)
    ensures var (log, left) := Drain(buf, room); Fits(left, more, room - |log|)
  {
    hide Drain, Clean, Frames, Residue, QuitOnlyLast;
    var (log, left) := Drain(buf, room);
    forall k | 0 <= k <= |more| ensures FitsAt(left + more[..k], |more| - k, room - |log|) {
      assert FitsAt(buf + more[..k], |more| - k, room);
      assert buf + more == (buf + more[..k]) + more[k..];
      CleanPrefix(buf + more[..k], more[k..], room);
      DrainSplit(buf, more[..k], room);
    }
  }

  lemma FitsStep(buf: bytes, chunk: bytes, later: bytes, room: nat)
    requires room > 0 && Parse(buf).Incomplete? && |chunk| <= READ_SIZE
    requires Clean(buf + (chunk + later), room) && Fits(buf, chunk + later, room)
    requires QuitOnlyLast(Frames(buf + (chunk + later), room))
    ensures |buf + chunk| <= MAX_BUFFER
    ensures var (log, left) := Drain(buf + chunk, room); Waiting(left, later, room - |log|)
  {
    hide Drain, Clean, Parse, QuitOnlyLast, Fits, Frames, Residue;
    var now := buf + chunk;
    assert buf + (chunk + later) == now + later;
    FitsNow(buf, chunk + later, room);
    FitsShift(buf, chunk, later, room);
    FitsLater(now, later, room);
    DrainSplit(now, later, room);
    DrainStops(now, later, room);
    var (log, left) := Drain(now, room);
    QuitOnlyLastPrefix(log, Frames(left + later, room - |log|));
  }

  /** The loop waits for its next read, and what is still to come will fit. */
  ghost predicate Waiting(buf: bytes, later: bytes, room: nat) {
    && Clean(buf + later, room) && QuitOnlyLast(Frames(buf + later, room))
    && Fits(buf, later, room) && (room == 0 || Parse(buf).Incomplete?)
  }

  /** A stream whose frames fit is never trimmed, however it is cut. */
  lemma {:induction false} FitsUntrimmed(buf: bytes, chunks: seq<bytes>, room: nat)
    requires Waiting(buf, Concat(chunks), room)
    requires forall c :: c in chunks ==> 1 <= |c| <= READ_SIZE
    ensures Untrimmed(buf, chunks, room)
    decreases |chunks|
  {
    hide Drain, Clean, Parse, QuitOnlyLast, Fits, Frames, Residue;
    if room > 0 && chunks != [] {
      assert chunks[0] in chunks && forall c :: c in chunks[1..] ==> c in chunks;
      FitsStep(buf, chunks[0], Concat(chunks[1..]), room);
      hide Waiting;
      var (log, left) := Drain(buf + chunks[0], room);
      FitsUntrimmed(left, chunks[1..], room - |log|);
    }
  }

  lemma FitsNow(buf: bytes, s: bytes, room: nat)
    requires room > 0 && Parse(buf).Incomplete? && Fits(buf, s, room)
    ensures |buf| + Min(READ_SIZE, |s|) <= MAX_BUFFER
  {
    hide Parse;
    assert buf + s[..0] == buf;
    assert FitsAt(buf, |s|, room);
  }

  lemma FitsShift(buf: bytes, chunk: bytes, later: bytes, room: nat)
    requires Fits(buf, chunk + later, room)
    ensures Fits(buf + chunk, later, room)
  {
    hide FitsAt;
    forall k | 0 <= k <= |later| ensures FitsAt((buf + chunk) + later[..k], |later| - k, room) {
      assert FitsAt(buf + (chunk + later)[..|chunk| + k], |later| - k, room);
      assert buf + (chunk + later)[..|chunk| + k] == (buf + chunk) + later[..k];
    }
  }

  /** However the stream is cut into reads, the loop records its first `limit` commands. */
  lemma ChunkInvariance(s: bytes, chunks: seq<bytes>, limit: nat)
    requires IsChunking(chunks, s)
    requires Clean(s, limit) && Fits([], s, limit) && QuitOnlyLast(Frames(s, limit))
    ensures Session([], chunks, limit) == Frames(s, limit)
  {
    hide Clean, Fits, QuitOnlyLast, Session, Untrimmed;
    assert [] + Concat(chunks) == s;
    FitsUntrimmed([], chunks, limit);
    SessionIsFrames([], chunks, limit);
  }
}

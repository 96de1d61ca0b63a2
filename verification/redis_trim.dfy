/** When the buffer cap of the Redis connection can be ignored, and what a trim does. */
module RedisTrim {
  import opened Bytes
  import opened Numbers
  import opened RespProtocol
  import opened RedisSession
  import opened RedisPipeline

  /** As long as nothing is trimmed, the buffer holds the unfinished frame. */
  lemma {:induction false} PendingFrame(buf: bytes, chunks: seq<bytes>, later: seq<bytes>, room: nat)
    requires var all := buf + Concat(chunks + later); Clean(all, room) && QuitOnlyLast(Frames(all, room))
    requires room == 0 || Parse(buf).Incomplete?
    requires Untrimmed(buf, chunks + later, room) && forall c :: c in chunks ==> c != []
    ensures var s := buf + Concat(chunks);
      && |Frames(s, room)| <= room
      && (|Frames(s, room)| < room ==> Untrimmed(Residue(s, room), later, room - |Frames(s, room)|))
    decreases |chunks|
  {
    hide Drain, Clean, Parse, QuitOnlyLast, Untrimmed, Frames, Residue, Concat;
    if chunks == [] {
      NoChunks(buf, later);
      NothingComplete(buf, room);
    } else if room == 0 {
      NoRoom(buf + Concat(chunks));
    } else {
      PendingRead(buf, chunks, later, room);
      var (log, left) := Drain(buf + chunks[0], room);
      PendingFrame(left, chunks[1..], later, room - |log|);
    }
  }

  lemma PendingRead(buf: bytes, chunks: seq<bytes>, later: seq<bytes>, room: nat)
    requires var all := buf + Concat(chunks + later); Clean(all, room) && QuitOnlyLast(Frames(all, room))
    requires room > 0 && chunks != [] && Untrimmed(buf, chunks + later, room) && forall c :: c in chunks ==> c != []
    ensures var ((log, left), between) := (Drain(buf + chunks[0], room), Concat(chunks[1..]));
      var (ahead, room') := (left + Concat(chunks[1..] + later), room - |log|);
      && Clean(ahead, room') && QuitOnlyLast(Frames(ahead, room')) && (room' == 0 || Parse(left).Incomplete?)
      && Untrimmed(left, chunks[1..] + later, room') && (forall c :: c in chunks[1..] ==> c != [])
      && |Frames(buf + Concat(chunks), room)| == |log| + |Frames(left + between, room')|
      && Residue(buf + Concat(chunks), room) == Residue(left + between, room')
  {
    hide Drain, Clean, Parse, QuitOnlyLast, Untrimmed, Frames, Residue, Concat;
    FirstChunk(buf, chunks, later);
    UntrimmedStep(buf, chunks + later, room);
    PendingStep(buf + chunks[0], Concat(chunks[1..]), Concat(later), room);
  }

  lemma NoChunks(buf: bytes, later: seq<bytes>)
    ensures [] + later == later && buf + Concat([]) == buf
  {
  }

  lemma FirstChunk(buf: bytes, chunks: seq<bytes>, later: seq<bytes>)
    requires chunks != [] && forall c :: c in chunks ==> c != []
    ensures var (all, now) := (chunks + later, buf + chunks[0]);
      && all[0] == chunks[0] != [] && all[1..] == chunks[1..] + later && (forall c :: c in chunks[1..] ==> c != [])
      && buf + Concat(all) == now + (Concat(chunks[1..]) + Concat(later))
      && buf + Concat(chunks) == now + Concat(chunks[1..])
      && Concat(chunks[1..] + later) == Concat(chunks[1..]) + Concat(later)
  {
    var all := chunks + later;
    assert chunks[0] in chunks && forall c :: c in chunks[1..] ==> c in chunks;
    assert all[1..] == chunks[1..] + later;
    ConcatSplit(chunks[1..], later);
  }

  lemma PendingStep(now: bytes, between: bytes, later: bytes, room: nat)
    requires var all := now + (between + later); Clean(all, room) && QuitOnlyLast(Frames(all, room))
    ensures var (log, left) := Drain(now, room);
      var (ahead, room') := (left + (between + later), room - |log|);
      && Clean(ahead, room') && QuitOnlyLast(Frames(ahead, room')) && (room' == 0 || Parse(left).Incomplete?)
      && |Frames(now + between, room)| == |log| + |Frames(left + between, room')|
      && Residue(now + between, room) == Residue(left + between, room')
  {
    hide Drain, Clean, Parse, QuitOnlyLast, Frames, Residue;
    assert now + (between + later) == (now + between) + later;
    CleanPrefix(now + between, later, room);
    DrainSplit(now, between + later, room);
    DrainSplit(now, between, room);
    DrainStops(now, between + later, room);
    var (log, left) := Drain(now, room);
    QuitOnlyLastPrefix(log, Frames(left + (between + later), room - |log|));
  }

  lemma NothingComplete(buf: bytes, room: nat)
    requires room == 0 || Parse(buf).Incomplete?
    ensures Frames(buf, room) == [] && Residue(buf, room) == buf
  {
    hide Parse;
  }

  lemma NoRoom(s: bytes)
    ensures Frames(s, 0) == []
  {
  }

  /** Without room for the next read at `k`, a cut that reads on from there trims. */
  lemma SomeCutTrims(s: bytes, limit: nat, k: nat) returns (chunks: seq<bytes>)
    requires Clean(s, limit) && QuitOnlyLast(Frames(s, limit)) && k < |s| && !FitsAt(s[..k], |s| - k, limit)
    ensures IsChunking(chunks, s) && !Untrimmed([], chunks, limit)
  {
    hide Clean, Parse, QuitOnlyLast, Untrimmed, Frames, Residue, Concat;
    var m := Min(READ_SIZE, |s| - k);
    var before, later := CutAt(s, READ_SIZE, k, m);
    chunks := before + later;
    assert [] + Concat(before) == s[..k] && [] + Concat(chunks) == s;
    if Untrimmed([], chunks, limit) {
      EmptyIsIncomplete();
      assert forall c :: c in before ==> c in chunks;
      PendingFrame([], before, later, limit);
      NextReadFits(Residue(s[..k], limit), later, limit - |Frames(s[..k], limit)|);
    }
  }

  lemma EmptyIsIncomplete()
    ensures Parse([]).Incomplete?
  {
  }

  lemma NextReadFits(buf: bytes, chunks: seq<bytes>, room: nat)
    requires Untrimmed(buf, chunks, room) && room > 0 && chunks != [] && chunks[0] != []
    ensures |buf| + |chunks[0]| <= MAX_BUFFER
  {
    hide Drain;
  }

  /** When the whole stream leaves too long a frame, so does all but its last byte. */
  lemma EarlierMisfit(s: bytes, limit: nat)
    requires Clean(s, limit) && s != [] && !FitsAt(s, 0, limit)
    ensures !FitsAt(s[..|s| - 1], 1, limit)
  {
    hide Clean, Frames, Residue;
    var init, last := s[..|s| - 1], s[|s| - 1..];
    assert s == init + last;
    FramesSplit(init, last, limit);
    ResidueShrinks(Residue(init, limit) + last, limit - |Frames(init, limit)|);
  }

  /** Exactly when the cap can be ignored: where no command follows a QUIT, no cut of a stream is trimmed
      if and only if every unfinished frame leaves room for the next read. */
  lemma NeverTrimmedIff(s: bytes, limit: nat)
    requires Clean(s, limit) && QuitOnlyLast(Frames(s, limit))
    ensures (forall chunks | IsChunking(chunks, s) :: Untrimmed([], chunks, limit)) <==> Fits([], s, limit)
  {
    hide Clean, QuitOnlyLast, Untrimmed, Frames, FitsAt;
    assert [] + s == s;
    EmptyIsIncomplete();
    hide Parse;
    if Fits([], s, limit) {
      forall chunks | IsChunking(chunks, s) ensures Untrimmed([], chunks, limit) {
        hide Fits;
        FitsUntrimmed([], chunks, limit);
      }
    } else {
      var k :| 0 <= k <= |s| && !FitsAt([] + s[..k], |s| - k, limit);
      assert [] + s[..k] == s[..k];
      if k == |s| {
        EmptyFits(limit);
        assert s[..k] == s;
        EarlierMisfit(s, limit);
        k := k - 1;
      }
      var chunks := SomeCutTrims(s, limit, k);
    }
  }

  lemma EmptyFits(limit: nat)
    ensures FitsAt([], 0, limit)
  {
    EmptyIsIncomplete();
    NothingComplete([], limit);
  }

  // ---- a trim at work ---------------------------------------------------------------------

  /** Until the last read nothing is complete; the last read costs the star. */
  lemma {:induction false} OneByteTooMany(cmd: Args, buf: bytes, chunks: seq<bytes>, room: nat)
    requires Encodable(cmd) && |Encode(cmd)| == MAX_BUFFER + 1 && buf + Concat(chunks) == Encode(cmd)
    requires room > 0 && chunks != [] && forall c :: c in chunks ==> c != []
    ensures Session(buf, chunks, room) == Drain(Encode(cmd)[1..], room).0
    decreases |chunks|
  {
    hide Parse, Encode, Encodable, Drain, Session, Concat;
    var s, now, rest := Encode(cmd), buf + chunks[0], chunks[1..];
    assert chunks[0] in chunks && forall c :: c in rest ==> c in chunks;
    assert now + Concat(rest) == s by { ConcatHead(buf, chunks); }
    SessionStep([], buf, chunks, room);
    assert [] + Session(buf, chunks, room) == Session(buf, chunks, room);
    if rest == [] {
      assert Concat([]) == [] by { NoneRead(); }
      assert now == s && Trim(now) == s[1..];
      var (log, left) := Drain(s[1..], room);
      SessionEnds(left, rest, room - |log|);
    } else {
      SomeRead(rest);
      assert s[..|now|] == now;
      UnfinishedCommand(cmd, |now|);
      DrainIncomplete(now, room);
      OneByteTooMany(cmd, now, rest, room);
      assert [] + [] + Session(now, rest, room) == Session(now, rest, room);
    }
  }

  lemma NoneRead()
    ensures Concat([]) == []
  {
  }

  lemma SomeRead(chunks: seq<bytes>)
    requires chunks != [] && forall c :: c in chunks ==> c != []
    ensures |Concat(chunks)| > 0
  {
    assert chunks[0] in chunks;
  }

  lemma DrainIncomplete(buf: bytes, room: nat)
    requires Parse(buf).Incomplete?
    ensures Drain(buf, room) == ([], buf)
  {
    hide Parse;
  }

  // "1"
  const ONE: bytes := [49]

  lemma BareHeader(arg: bytes)
    ensures Parse(Encode([arg])[1..]) == Command([ONE], EncodeBulk(arg))
  {
    hide Parse, EncodeBulk;
    var words, gaps: seq<bytes> := [ONE], [[], []];
    assert Decimal.Print(1) == ONE;
    assert words[1..] == [] && gaps[1..] == [[]];
    assert Line([], [[]]) == [] && Line(words, gaps) == [] + ONE + [];
    assert [arg][1..] == [] && EncodeBulks([arg]) == EncodeBulk(arg) + [];
    assert Encode([arg]) == [STAR] + (ONE + CRLF + EncodeBulk(arg));
    assert ONE[1..] == [];
    InlineRoundTrip(words, gaps, EncodeBulk(arg));
    assert Encode([arg])[1..] == Line(words, gaps) + CRLF + EncodeBulk(arg);
  }

  lemma FirstDrained(buf: bytes, args: Args, rest: bytes, room: nat)
    requires room > 0 && Parse(buf) == Command(args, rest)
    ensures Drain(buf, room).0 != [] && Drain(buf, room).0[0] == args
  {
    hide Parse, Closes;
  }

  /** A command of one byte more than the cap is recorded as something else under every cut: its star is
      trimmed, and the number of its arguments is taken for a command. */
  lemma TrimDamages(arg: bytes, chunks: seq<bytes>, limit: nat)
    requires Encodable([arg]) && |Encode([arg])| == 65537
    requires limit > 0 && IsChunking(chunks, Encode([arg]))
    ensures var log := Session([], chunks, limit);
      && Frames(Encode([arg]), limit) == [[arg]]
      && log != [] && log[0] == [ONE] && log != [[arg]]
  {
    var s := Encode([arg]);
    OneFrame([arg], limit);
    assert [] + Concat(chunks) == s;
    hide Session, Drain, Encodable, Frames;
    OneByteTooMany([arg], [], chunks, limit);
    BareHeader(arg);
    hide Parse;
    FirstDrained(s[1..], [ONE], EncodeBulk(arg), limit);
    LongArgument(arg);
  }

  lemma OneFrame(cmd: Args, limit: nat)
    requires Encodable(cmd) && limit > 0
    ensures Frames(Encode(cmd), limit) == [cmd]
  {
    hide Parse, Encode, Encodable;
    RoundTrip(cmd, []);
    assert Encode(cmd) + [] == Encode(cmd);
    EmptyIsIncomplete();
    NothingComplete([], limit - 1);
  }

  lemma LongArgument(arg: bytes)
    requires |Encode([arg])| == MAX_BUFFER + 1
    ensures arg != ONE
  {
    OneIsShort();
  }

  lemma OneIsShort()
    ensures |Encode([ONE])| < 100
  {
    assert [ONE][1..] == [] && Decimal.Print(1) == ONE;
    assert EncodeBulk(ONE) == [DOLLAR] + ONE + CRLF + ONE + CRLF;
    assert EncodeBulks([ONE]) == EncodeBulk(ONE) + [];
  }
}

/** Exactly when a QUIT costs commands: the loop waits for another read after it, so that commands pile
    up behind QUITs that come faster than the reads. */
module RedisQuits {
  import opened Bytes
  import opened RespProtocol
  import opened RedisSession

  // ---- one cut ---------------------------------------------------------------------

  /** How many commands one drain takes: up to and including the first QUIT. */
  function Span(log: seq<Args>): (n: nat)
    ensures n <= |log|
  {
    if log == [] then 0 else if Closes(log[0]) then 1 else 1 + Span(log[1..])
  }

  /** How many commands are drained, of `g` drained before and `a` that have arrived. */
  function Next(log: seq<Args>, g: nat, a: nat): (g': nat)
    requires g <= a <= |log|
    ensures g <= g' <= a
  {
    g + Span(log[g..a])
  }

  /** `g` and the numbers `arrived` rise, up to `n`. */
  predicate Rises(g: nat, arrived: seq<nat>, n: nat)
    decreases |arrived|
  {
    if arrived == [] then g <= n else g <= arrived[0] && Rises(arrived[0], arrived[1..], n)
  }

  /** How many commands are drained after reads that bring the number of arrived ones to `arrived`. */
  function Taken(log: seq<Args>, g: nat, arrived: seq<nat>): (n: nat)
    requires Rises(g, arrived, |log|)
    ensures n <= |log|
    decreases |arrived|
  {
    if arrived == [] then g
    else
      RisesBound(g, arrived, |log|);
      RisesBound(arrived[0], arrived[1..], |log|);
      RisesFrom(arrived[0], Next(log, g, arrived[0]), arrived[1..], |log|);
      Taken(log, Next(log, g, arrived[0]), arrived[1..])
  }

  lemma {:induction false} RisesBound(g: nat, arrived: seq<nat>, n: nat)
    requires Rises(g, arrived, n)
    ensures g <= n
    decreases |arrived|
  {
    if arrived == [] {
    } else {
      RisesBound(arrived[0], arrived[1..], n);
    }
  }

  lemma RisesFrom(g: nat, g': nat, arrived: seq<nat>, n: nat)
    requires Rises(g, arrived, n) && g' <= g
    ensures Rises(g', arrived, n)
  {
  }

  /** The QUITs from position `g` on that another command follows. */
  function QuitsFrom(log: seq<Args>, g: nat): nat
    decreases |log| - g
  {
    if g + 1 >= |log| then 0 else QuitsFrom(log, g + 1) + if Closes(log[g]) then 1 else 0
  }

  lemma {:induction false} QuitsFall(log: seq<Args>, g: nat, a: nat)
    requires g <= a
    ensures QuitsFrom(log, a) <= QuitsFrom(log, g)
    decreases a - g
  {
    if g == a {
    } else {
      QuitsFall(log, g + 1, a);
      QuitsOfNothing(log, a);
    }
  }

  lemma QuitsOfNothing(log: seq<Args>, a: nat)
    ensures a + 1 >= |log| ==> QuitsFrom(log, a) == 0
  {
  }

  /** A drain takes everything that has arrived, or exactly one QUIT with a command behind it. */
  lemma {:induction false} NextQuit(log: seq<Args>, g: nat, a: nat)
    requires g <= a <= |log|
    ensures var g' := Next(log, g, a);
      || (g' == a && QuitsFrom(log, g) == QuitsFrom(log, a))
      || (g' < |log| && QuitsFrom(log, g) == QuitsFrom(log, g') + 1)
    decreases a - g
  {
    hide Closes;
    if g == a {
      assert log[g..a] == [];
    } else {
      assert log[g..a][0] == log[g] && log[g..a][1..] == log[g + 1..a];
      NextQuit(log, g + 1, a);
    }
  }

  /** Before every read, fewer QUITs lie ahead than reads. */
  predicate InTime(log: seq<Args>, g: nat, arrived: seq<nat>)
    decreases |arrived|
  {
    arrived == [] || (QuitsFrom(log, g) < |arrived| && InTime(log, arrived[0], arrived[1..]))
  }

  predicate EndsAt(arrived: seq<nat>, n: nat) {
    arrived != [] && arrived[|arrived| - 1] == n
  }

  /** Exactly when a given cut loses nothing: each drain can work off one QUIT, so that behind no
      read more of them may arrive than reads are left. */
  lemma {:induction false} TakenIff(log: seq<Args>, g: nat, arrived: seq<nat>)
    requires Rises(g, arrived, |log|) && EndsAt(arrived, |log|)
    ensures Taken(log, g, arrived) == |log| <==> InTime(log, g, arrived)
    decreases |arrived|
  {
    hide Next, QuitsFrom;
    RisesBound(g, arrived, |log|);
    RisesBound(arrived[0], arrived[1..], |log|);
    var g', rest := Next(log, g, arrived[0]), arrived[1..];
    NextQuit(log, g, arrived[0]);
    QuitsFall(log, g', arrived[0]);
    QuitsOfNothing(log, |log|);
    if rest == [] {
      assert Taken(log, g', rest) == g';
    } else {
      assert rest[|rest| - 1] == arrived[|arrived| - 1];
      RisesFrom(arrived[0], g', rest, |log|);
      TakenIff(log, g', rest);
    }
  }

  // ---- what the loop does is what the numbers say --------------------------------------

  /** The commands that the first `k` bytes hold. */
  function Available(s: bytes, k: nat, limit: nat): nat
    requires k <= |s|
  {
    |Frames(s[..k], limit)|
  }

  lemma AvailableIsPrefix(s: bytes, k: nat, limit: nat)
    requires k <= |s| && Clean(s, limit)
    ensures Available(s, k, limit) <= |Frames(s, limit)|
    ensures Frames(s[..k], limit) == Frames(s, limit)[..Available(s, k, limit)]
  {
    hide Clean, Frames, Residue;
    assert s == s[..k] + s[k..];
    FramesSplit(s[..k], s[k..], limit);
  }

  lemma AvailableRises(s: bytes, k: nat, k': nat, limit: nat)
    requires k <= k' <= |s| && Clean(s, limit)
    ensures Available(s, k, limit) <= Available(s, k', limit)
  {
    hide Clean, Frames;
    assert s == s[..k'] + s[k'..];
    CleanPrefix(s[..k'], s[k'..], limit);
    assert s[..k'][..k] == s[..k];
    AvailableIsPrefix(s[..k'], k, limit);
  }

  /** The commands that have arrived after each of the reads `chunks`, which start at `p`. */
  function Arrived(s: bytes, p: nat, chunks: seq<bytes>, limit: nat): (r: seq<nat>)
    requires p + |Concat(chunks)| <= |s|
    ensures |r| == |chunks|
    decreases |chunks|
  {
    if chunks == [] then []
    else [Available(s, p + |chunks[0]|, limit)] + Arrived(s, p + |chunks[0]|, chunks[1..], limit)
  }

  lemma {:induction false} ArrivedRises(s: bytes, p: nat, g: nat, chunks: seq<bytes>, limit: nat)
    requires Clean(s, limit) && p + |Concat(chunks)| == |s| && g <= Available(s, p, limit)
    ensures Rises(g, Arrived(s, p, chunks, limit), |Frames(s, limit)|)
    ensures chunks != [] ==> EndsAt(Arrived(s, p, chunks, limit), |Frames(s, limit)|)
    decreases |chunks|
  {
    hide Clean, Available, Frames;
    AvailableAll(s, limit);
    if chunks == [] {
    } else {
      var p' := p + |chunks[0]|;
      AvailableRises(s, p, p', limit);
      ArrivedRises(s, p', Available(s, p', limit), chunks[1..], limit);
      ArrivedFirst(s, p, chunks, limit);
      hide Arrived;
    }
  }

  lemma ArrivedFirst(s: bytes, p: nat, chunks: seq<bytes>, limit: nat)
    requires chunks != [] && p + |Concat(chunks)| <= |s|
    ensures var (r, rest) := (Arrived(s, p, chunks, limit), Arrived(s, p + |chunks[0]|, chunks[1..], limit));
      && r[0] == Available(s, p + |chunks[0]|, limit) && r[1..] == rest
      && r[|r| - 1] == if rest == [] then r[0] else rest[|rest| - 1]
  {
    hide Available;
  }

  lemma AvailableAll(s: bytes, limit: nat)
    ensures Available(s, |s|, limit) == |Frames(s, limit)| && Available(s, 0, limit) == 0
  {
    assert s[..|s|] == s && s[..0] == [];
    assert Parse([]).Incomplete?;
  }

  lemma {:induction false} DrainSpan(buf: bytes, room: nat)
    ensures Drain(buf, room).0 == Frames(buf, room)[..Span(Frames(buf, room))]
    decreases room
  {
    hide Parse, Closes;
    if room == 0 || Parse(buf).Incomplete? {
    } else {
      var frames := Frames(buf, room);
      DrainSpan(Parse(buf).rest, room - 1);
      assert frames[1..] == Frames(Parse(buf).rest, room - 1);
    }
  }

  /** After `p` bytes and `g` commands, `buf` is what is left: with any further bytes it gives the
      commands behind the first `g`. */
  predicate LeftAt(s: bytes, p: nat, g: nat, buf: bytes, limit: nat, k: nat)
    requires p <= k <= |s| && g <= limit
  {
    && g <= Available(s, k, limit)
    && Frames(buf + s[p..k], limit - g) == Frames(s[..k], limit)[g..]
  }

  predicate Left(s: bytes, p: nat, g: nat, buf: bytes, limit: nat) {
    && p <= |s| && g <= limit && Clean(buf + s[p..], limit - g)
    && forall k :: p <= k <= |s| ==> LeftAt(s, p, g, buf, limit, k)
  }

  lemma CleanUpTo(s: bytes, p: nat, buf: bytes, room: nat, k: nat)
    requires p <= k <= |s| && Clean(buf + s[p..], room)
    ensures Clean(buf + s[p..k], room)
  {
    hide Clean;
    assert buf + s[p..] == (buf + s[p..k]) + s[k..];
    CleanPrefix(buf + s[p..k], s[k..], room);
  }

  lemma DropLog(all: seq<Args>, g: nat, log: seq<Args>, more: seq<Args>)
    requires g <= |all| && all[g..] == log + more
    ensures g + |log| <= |all| && all[g + |log|..] == more && all[g..g + |log|] == log
  {
    assert all[g..][|log|..] == more && all[g..][..|log|] == log;
  }

  lemma LeftStepAt(s: bytes, p: nat, g: nat, buf: bytes, limit: nat, p': nat, k: nat)
    requires p <= p' <= k <= |s| && g <= limit
    requires LeftAt(s, p, g, buf, limit, k) && Clean(buf + s[p..k], limit - g)
    ensures var (log, left) := Drain(buf + s[p..p'], limit - g); LeftAt(s, p', g + |log|, left, limit, k)
  {
    hide Clean, Drain, Frames, Residue;
    assert buf + s[p..k] == (buf + s[p..p']) + s[p'..k];
    DrainSplit(buf + s[p..p'], s[p'..k], limit - g);
    var (log, left) := Drain(buf + s[p..p'], limit - g);
    DropLog(Frames(s[..k], limit), g, log, Frames(left + s[p'..k], limit - g - |log|));
  }

  lemma LeftStepAll(s: bytes, p: nat, g: nat, buf: bytes, limit: nat, p': nat)
    requires Left(s, p, g, buf, limit) && p <= p' <= |s|
    ensures var (log, left) := Drain(buf + s[p..p'], limit - g); Left(s, p', g + |log|, left, limit)
  {
    hide Clean, Drain, LeftAt, Frames, Residue;
    var (log, left) := Drain(buf + s[p..p'], limit - g);
    var g' := g + |log|;
    forall k | p' <= k <= |s| ensures LeftAt(s, p', g', left, limit, k) {
      CleanUpTo(s, p, buf, limit - g, k);
      LeftStepAt(s, p, g, buf, limit, p', k);
    }
    assert buf + s[p..] == (buf + s[p..p']) + s[p'..];
    DrainSplit(buf + s[p..p'], s[p'..], limit - g);
  }

  lemma LeftStep(s: bytes, p: nat, g: nat, buf: bytes, limit: nat, p': nat)
    requires Left(s, p, g, buf, limit) && p <= p' <= |s| && g <= limit && Clean(s, limit)
    ensures var (log, left) := Drain(buf + s[p..p'], limit - g);
      && g <= Available(s, p', limit) <= |Frames(s, limit)|
      && g + |log| == Next(Frames(s, limit), g, Available(s, p', limit))
      && log == Frames(s, limit)[g..g + |log|]
      && Left(s, p', g + |log|, left, limit)
  {
    hide Clean, Drain, Frames, Left, Span, Available;
    LeftStepAll(s, p, g, buf, limit, p');
    DrainSpan(buf + s[p..p'], limit - g);
    LeftFrames(s, p, g, buf, limit, p');
  }

  lemma LeftFrames(s: bytes, p: nat, g: nat, buf: bytes, limit: nat, p': nat)
    requires Left(s, p, g, buf, limit) && p <= p' <= |s| && g <= limit && Clean(s, limit)
    ensures g <= Available(s, p', limit) <= |Frames(s, limit)|
    ensures Frames(buf + s[p..p'], limit - g) == Frames(s, limit)[g..Available(s, p', limit)]
  {
    hide Clean, Frames;
    assert LeftAt(s, p, g, buf, limit, p');
    AvailableIsPrefix(s, p', limit);
  }

  /** The loop records the commands that the numbers of arrived commands say. */
  lemma {:induction false} SessionTaken(s: bytes, p: nat, g: nat, buf: bytes, chunks: seq<bytes>, limit: nat)
    requires p <= |s| && g <= limit && Concat(chunks) == s[p..]
    requires Clean(s, limit) && Left(s, p, g, buf, limit)
    requires Untrimmed(buf, chunks, limit - g) && forall c :: c in chunks ==> c != []
    requires g <= |Frames(s, limit)| && Rises(g, Arrived(s, p, chunks, limit), |Frames(s, limit)|)
    ensures var log := Frames(s, limit);
      log[..g] + Session(buf, chunks, limit - g) == log[..Taken(log, g, Arrived(s, p, chunks, limit))]
    decreases |chunks|
  {
    hide Clean, Drain, Frames, Next, Left, Available, Session, Untrimmed, Taken, Arrived;
    var log, arrived := Frames(s, limit), Arrived(s, p, chunks, limit);
    FramesAtMost(s, limit);
    if chunks == [] || limit == g {
      SessionEnds(buf, chunks, limit - g);
      AllTaken(log, g, arrived);
    } else {
      assert chunks[0] in chunks && forall c :: c in chunks[1..] ==> c in chunks;
      var p' := p + |chunks[0]|;
      SplitRead(s, p, chunks);
      LeftStep(s, p, g, buf, limit, p');
      var (drained, left) := Drain(buf + chunks[0], limit - g);
      UntrimmedStep(buf, chunks, limit - g);
      TakenStep(s, p, g, chunks, limit);
      SessionTaken(s, p', g + |drained|, left, chunks[1..], limit);
      assert log[..g] + drained == log[..g + |drained|];
    }
  }

  lemma TakenStep(s: bytes, p: nat, g: nat, chunks: seq<bytes>, limit: nat)
    requires chunks != [] && p + |Concat(chunks)| <= |s|
    requires Rises(g, Arrived(s, p, chunks, limit), |Frames(s, limit)|)
    ensures var (log, p') := (Frames(s, limit), p + |chunks[0]|);
      && g <= Available(s, p', limit) <= |log|
      && var g' := Next(log, g, Available(s, p', limit));
      && Rises(g', Arrived(s, p', chunks[1..], limit), |log|)
      && Taken(log, g, Arrived(s, p, chunks, limit)) == Taken(log, g', Arrived(s, p', chunks[1..], limit))
  {
    hide Frames, Available, Next;
    var log, arrived := Frames(s, limit), Arrived(s, p, chunks, limit);
    RisesBound(arrived[0], arrived[1..], |log|);
    RisesFrom(arrived[0], Next(log, g, arrived[0]), arrived[1..], |log|);
  }

  lemma SplitRead(s: bytes, p: nat, chunks: seq<bytes>)
    requires p <= |s| && chunks != [] && Concat(chunks) == s[p..]
    ensures p + |chunks[0]| <= |s| && s[p..p + |chunks[0]|] == chunks[0]
    ensures s[p + |chunks[0]|..] == Concat(chunks[1..])
  {
    var n := |chunks[0]|;
    assert s[p..][..n] == chunks[0] && s[p..][n..] == Concat(chunks[1..]);
  }

  lemma {:induction false} FramesAtMost(s: bytes, limit: nat)
    ensures |Frames(s, limit)| <= limit
    decreases limit
  {
    hide Parse;
    if limit == 0 || Parse(s).Incomplete? {
    } else {
      FramesAtMost(Parse(s).rest, limit - 1);
    }
  }

  lemma AllTaken(log: seq<Args>, g: nat, arrived: seq<nat>)
    requires Rises(g, arrived, |log|) && (g == |log| || arrived == [])
    ensures Taken(log, g, arrived) == g
    decreases |arrived|
  {
    if arrived == [] {
    } else {
      RisesBound(arrived[0], arrived[1..], |log|);
      AllTaken(log, g, arrived[1..]);
    }
  }

  lemma LeftStart(s: bytes, limit: nat)
    requires Clean(s, limit)
    ensures Left(s, 0, 0, [], limit)
  {
    hide Clean, Frames;
    assert [] + s[0..] == s;
    forall k | 0 <= k <= |s| ensures LeftAt(s, 0, 0, [], limit, k) {
      assert [] + s[0..k] == s[..k];
    }
  }

  /** A cut records all commands exactly when the QUITs come in time. */
  lemma CutIff(s: bytes, chunks: seq<bytes>, limit: nat)
    requires Clean(s, limit) && IsChunking(chunks, s) && Untrimmed([], chunks, limit)
    ensures Session([], chunks, limit) == Frames(s, limit) <==>
      InTime(Frames(s, limit), 0, Arrived(s, 0, chunks, limit))
  {
    if chunks == [] {
      NothingSent(s, limit);
    } else {
      hide Clean, Frames, Untrimmed, Left, Available, Session, Taken, InTime, Arrived, Rises, EndsAt;
      var log, arrived := Frames(s, limit), Arrived(s, 0, chunks, limit);
      assert s[0..] == s;
      LeftStart(s, limit);
      AvailableAll(s, limit);
      ArrivedRises(s, 0, 0, chunks, limit);
      SessionTaken(s, 0, 0, [], chunks, limit);
      TakenIff(log, 0, arrived);
      PrefixIsAll(log, Session([], chunks, limit), Taken(log, 0, arrived));
    }
  }

  lemma PrefixIsAll(log: seq<Args>, recorded: seq<Args>, n: nat)
    requires n <= |log| && log[..0] + recorded == log[..n]
    ensures recorded == log <==> n == |log|
  {
    assert log[..0] + recorded == recorded;
  }

  lemma NothingSent(s: bytes, limit: nat)
    ensures s == [] ==> Frames(s, limit) == [] && InTime([], 0, []) && Session([], [], limit) == []
    ensures Arrived(s, 0, [], limit) == [] && Concat([]) == []
  {
    assert Parse([]).Incomplete?;
  }

  // ---- all cuts ------------------------------------------------------------------------------

  /** What is read before the last `t` reads, when these bring as much as they can. */
  function Before(s: bytes, t: nat): (k: nat)
    ensures k <= |s|
  {
    if |s| > READ_SIZE * t then |s| - READ_SIZE * t else 0
  }

  /** Of the QUITs with a command behind them, fewer than `t` complete within the last `t` reads' worth
      of bytes, for every `t`. */
  ghost predicate Calm(s: bytes, limit: nat) {
    forall t: nat :: t >= 1 ==> QuitsFrom(Frames(s, limit), Available(s, Before(s, t), limit)) < t
  }

  lemma {:induction false} CalmInTime(s: bytes, p: nat, chunks: seq<bytes>, limit: nat)
    requires Clean(s, limit) && Calm(s, limit)
    requires p <= |s| && Concat(chunks) == s[p..] && forall c :: c in chunks ==> 1 <= |c| <= READ_SIZE
    ensures InTime(Frames(s, limit), Available(s, p, limit), Arrived(s, p, chunks, limit))
    decreases |chunks|
  {
    hide Clean, Calm, Available, Frames, QuitsFrom;
    if chunks == [] {
    } else {
      var t := |chunks|;
      ChunksAtMost(chunks);
      assert p >= Before(s, t);
      AvailableRises(s, Before(s, t), p, limit);
      QuitsFall(Frames(s, limit), Available(s, Before(s, t), limit), Available(s, p, limit));
      assert QuitsFrom(Frames(s, limit), Available(s, p, limit)) < t by { CalmAt(s, limit, t); }
      SplitRead(s, p, chunks);
      assert forall c :: c in chunks[1..] ==> c in chunks;
      assert chunks[0] in chunks;
      CalmInTime(s, p + |chunks[0]|, chunks[1..], limit);
    }
  }

  lemma CalmAt(s: bytes, limit: nat, t: nat)
    requires Calm(s, limit) && t >= 1
    ensures QuitsFrom(Frames(s, limit), Available(s, Before(s, t), limit)) < t
  {
  }

  lemma {:induction false} ChunksAtMost(chunks: seq<bytes>)
    requires forall c :: c in chunks ==> |c| <= READ_SIZE
    ensures |Concat(chunks)| <= READ_SIZE * |chunks|
  {
    if chunks == [] {
    } else {
      assert chunks[0] in chunks && forall c :: c in chunks[1..] ==> c in chunks;
      ChunksAtMost(chunks[1..]);
    }
  }

  /** What comes in time from the start does so from any later read. */
  lemma {:induction false} InTimeLater(s: bytes, p: nat, g: nat, before: seq<bytes>, later: seq<bytes>, limit: nat)
    requires p + |Concat(before + later)| <= |s| && g <= Available(s, p, limit)
    requires Clean(s, limit) && InTime(Frames(s, limit), g, Arrived(s, p, before + later, limit))
    ensures |Concat(before + later)| == |Concat(before)| + |Concat(later)|
    ensures before == [] && later != [] ==> QuitsFrom(Frames(s, limit), g) < |later|
    ensures before != [] && later != [] ==>
      QuitsFrom(Frames(s, limit), Available(s, p + |Concat(before)|, limit)) < |later|
    decreases |before|
  {
    hide Clean, Available, Frames, QuitsFrom;
    ConcatSplit(before, later);
    var all := before + later;
    if before == [] {
      assert all == later;
    } else {
      var p' := p + |before[0]|;
      assert all[0] == before[0] && all[1..] == before[1..] + later;
      InTimeLater(s, p', Available(s, p', limit), before[1..], later, limit);
    }
  }

  lemma LosingCut(s: bytes, limit: nat, t: nat) returns (chunks: seq<bytes>)
    requires Clean(s, limit) && t >= 1
    requires QuitsFrom(Frames(s, limit), Available(s, Before(s, t), limit)) >= t
    ensures IsChunking(chunks, s)
    ensures !InTime(Frames(s, limit), 0, Arrived(s, 0, chunks, limit))
  {
    hide Clean, Available, Frames, QuitsFrom, Cut, Arrived, InTime;
    var k := Before(s, t);
    var before, later := Cut(s[..k], READ_SIZE), Cut(s[k..], READ_SIZE);
    chunks := before + later;
    ConcatSplit(before, later);
    assert s == s[..k] + s[k..];
    CutLength(s[k..], READ_SIZE, t);
    AvailableAll(s, limit);
    if later == [] {
      assert s[k..] == [] && k == |s|;
      QuitsOfNothing(Frames(s, limit), |Frames(s, limit)|);
    }
    if InTime(Frames(s, limit), 0, Arrived(s, 0, chunks, limit)) {
      InTimeLater(s, 0, 0, before, later, limit);
    }
  }

  /** Exactly when no cut of a stream loses a command, for streams that no cut trims. */
  lemma ChunkInvarianceIff(s: bytes, limit: nat)
    requires Clean(s, limit) && forall chunks | IsChunking(chunks, s) :: Untrimmed([], chunks, limit)
    ensures (forall chunks | IsChunking(chunks, s) :: Session([], chunks, limit) == Frames(s, limit))
      <==> Calm(s, limit)
  {
    hide Clean, Untrimmed, Session, Frames, Available, QuitsFrom, InTime, Arrived;
    AvailableAll(s, limit);
    assert s[0..] == s;
    if Calm(s, limit) {
      forall chunks | IsChunking(chunks, s) ensures Session([], chunks, limit) == Frames(s, limit) {
        CalmInTime(s, 0, chunks, limit);
        CutIff(s, chunks, limit);
      }
    } else {
      var t: nat :| t >= 1 && QuitsFrom(Frames(s, limit), Available(s, Before(s, t), limit)) >= t;
      var chunks := LosingCut(s, limit, t);
      CutIff(s, chunks, limit);
    }
  }

  /** A stream of at most 64 KiB is never trimmed. */
  lemma {:induction false} SmallUntrimmed(buf: bytes, chunks: seq<bytes>, room: nat)
    requires |buf + Concat(chunks)| <= MAX_BUFFER && Clean(buf + Concat(chunks), room)
    ensures Untrimmed(buf, chunks, room)
    decreases |chunks|
  {
    hide Drain, Clean;
    if room == 0 || chunks == [] || chunks[0] == [] {
    } else {
      var now, later := buf + chunks[0], Concat(chunks[1..]);
      assert buf + Concat(chunks) == now + later;
      SmallLeft(now, later, room);
      var (log, left) := Drain(now, room);
      SmallUntrimmed(left, chunks[1..], room - |log|);
    }
  }

  lemma SmallLeft(now: bytes, later: bytes, room: nat)
    requires Clean(now + later, room)
    ensures var (log, left) := Drain(now, room); |left| <= |now| && Clean(left + later, room - |log|)
  {
    hide Drain, Clean, Frames, Residue;
    DrainSplit(now, later, room);
    CleanPrefix(now, later, room);
    DrainShrinks(now, room);
  }

  lemma {:induction false} DrainShrinks(buf: bytes, room: nat)
    requires Clean(buf, room)
    ensures |Drain(buf, room).1| <= |buf|
    decreases room
  {
    hide Parse, ReachesBack, Closes;
    if room == 0 || Parse(buf).Incomplete? {
    } else {
      ParseStable(buf, []);
      DrainShrinks(Parse(buf).rest, room - 1);
    }
  }

  /** So of a stream of at most 64 KiB no cut loses a command if and only if it is calm. */
  lemma SmallInvarianceIff(s: bytes, limit: nat)
    requires |s| <= 65536 && Clean(s, limit)
    ensures (forall chunks | IsChunking(chunks, s) :: Session([], chunks, limit) == Frames(s, limit))
      <==> Calm(s, limit)
  {
    hide Clean, Untrimmed, Session, Frames, Calm;
    forall chunks | IsChunking(chunks, s) ensures Untrimmed([], chunks, limit) {
      assert [] + Concat(chunks) == s;
      SmallUntrimmed([], chunks, limit);
    }
    ChunkInvarianceIff(s, limit);
  }
}

/** The fake shell's line reader (services/ssh/shell.py). */
module Shell {
  import opened Bytes
  import opened Numbers
  import opened Utf8

  const READ_SIZE := 1024
  const MAX_COMMAND := 4096
  const BUFFER_CAP := 4 * MAX_COMMAND
  const DROPPED := 2 * MAX_COMMAND

  const EXIT: bytes := [101, 120, 105, 116]
  const LOGOUT: bytes := [108, 111, 103, 111, 117, 116]
  const QUIT: bytes := [113, 117, 105, 116]

  predicate IsEnd(c: byte) {
    c == LF || c == CR
  }

  predicate NoEnd(b: bytes) {
    forall c :: c in b ==> !IsEnd(c)
  }

  // ---- specification -------------------------------------------------------

  function FirstWord(b: bytes): bytes {
    if b == [] || BlankLength(b) > 0 then [] else [b[0]] + FirstWord(b[1..])
  }

  /** The captured command of a line; blank lines give none. */
  function Command(line: bytes): bytes {
    Strip(TakeChars(line, MAX_COMMAND))
  }

  predicate IsExit(cmd: bytes) {
    FirstWord(cmd) in {EXIT, LOGOUT, QUIT}
  }

  /** The position of the first CR or LF, or the length. */
  function FirstEnd(b: bytes): (i: nat)
    ensures i <= |b| && NoEnd(b[..i]) && (i < |b| ==> IsEnd(b[i]))
  {
    if b == [] || IsEnd(b[0]) then 0
    else
      var i := 1 + FirstEnd(b[1..]);
      assert b[..i] == [b[0]] + b[1..][..i - 1];
      i
  }

  /** What follows the line end at `i`; CRLF is one end. */
  function AfterEnd(b: bytes, i: nat): (rest: bytes)
    requires i < |b|
    ensures |rest| < |b| && rest == b[|b| - |rest|..]
  {
    if b[i] == CR && i + 1 < |b| && b[i + 1] == LF then b[i + 2..] else b[i + 1..]
  }

  /** The inner loop: commands, what is left in the buffer, and whether an exit command was met. */
  function Drain(buf: bytes): (r: (seq<bytes>, bytes, bool))
    decreases |buf|
  {
    var i := FirstEnd(buf);
    if i == |buf| then ([], buf, false)
    else
      var cmd, rest := Command(buf[..i]), AfterEnd(buf, i);
      if cmd == [] then Drain(rest)
      else if IsExit(cmd) then ([cmd], rest, true)
      else
        var (more, left, stop) := Drain(rest);
        ([cmd] + more, left, stop)
  }

  function Cap(buf: bytes): bytes {
    if |buf| > BUFFER_CAP then buf[DROPPED..] else buf
  }

  /** The commands yielded from now on; `chunks` are the reads still to come. */
  function Session(buf: bytes, chunks: seq<bytes>): seq<bytes>
    decreases |chunks|
  {
    if chunks == [] || chunks[0] == [] then []
    else
      var (cmds, left, stop) := Drain(Cap(buf + chunks[0]));
      if stop then cmds else cmds + Session(left, chunks[1..])
  }

  // ---- the shell as written ----------------------------------------------------

  class FakeShell {
    var buffer: bytes

    constructor ()
      ensures buffer == []
    {
      buffer := [];
    }

    /** `chunks` are the results of the reads until the channel closes or time is up. */
    method Run(chunks: seq<bytes>) returns (cmds: seq<bytes>)
      modifies this
      ensures cmds == Session(old(buffer), chunks)
    {
      hide Drain, Cap;
      cmds := [];
      var k := 0;
      assert chunks[0..] == chunks;
      while k < |chunks|
        invariant 0 <= k <= |chunks|
        invariant cmds + Session(buffer, chunks[k..]) == Session(old(buffer), chunks)
      {
        if chunks[k] == [] {
          assert Session(buffer, chunks[k..]) == [];
          return;
        }
        assert chunks[k..][1..] == chunks[k + 1..];
        var more, stop := Feed(chunks[k]);
        cmds := cmds + more;
        if stop { return; }
        k := k + 1;
      }
    }

    /** One read: extend the buffer, cap it, and take out every complete line. */
    method Feed(chunk: bytes) returns (cmds: seq<bytes>, stop: bool)
      modifies this
      ensures (cmds, buffer, stop) == Drain(Cap(old(buffer) + chunk))
      ensures |chunk| <= READ_SIZE && |old(buffer)| <= BUFFER_CAP ==> |buffer| <= BUFFER_CAP
      ensures !stop ==> NoEnd(buffer)
    {
      hide Drain, IsExit, Command;
      buffer := buffer + chunk;
      if |buffer| > BUFFER_CAP { buffer := buffer[DROPPED..]; }
      ghost var all := buffer;
      cmds, stop := [], false;
      while FirstEnd(buffer) < |buffer|
        invariant |buffer| <= |all|
        invariant cmds + Drain(buffer).0 == Drain(all).0
        invariant Drain(buffer).1 == Drain(all).1 && Drain(buffer).2 == Drain(all).2
        decreases |buffer|
      {
        DrainStep(buffer);
        var line, rest := SplitOneLine(buffer);
        buffer := rest;
        var cmd := Command(line);
        Regroup(cmds, cmd, Drain(rest).0);
        if cmd != [] {
          cmds := cmds + [cmd];
          if IsExit(cmd) {
            stop := true;
            return;
          }
        }
      }
      DrainNothing(cmds, buffer);
    }

    /** Only called on a buffer that holds a line end. */
    static method SplitOneLine(buf: bytes) returns (line: bytes, rest: bytes)
      requires FirstEnd(buf) < |buf|
      ensures line == buf[..FirstEnd(buf)] && rest == AfterEnd(buf, FirstEnd(buf))
    {
      var i := 0;
      while i < |buf| && !IsEnd(buf[i])
        invariant 0 <= i <= FirstEnd(buf) && NoEnd(buf[..i])
      {
        assert i < FirstEnd(buf);
        assert buf[..i + 1] == buf[..i] + [buf[i]];
        i := i + 1;
      }
      FirstEndUnique(buf, i);
      line := buf[..i];
      rest := buf[i + 1..];
      if buf[i] == CR && rest != [] && rest[0] == LF { rest := rest[1..]; }
    }
  }

  lemma DrainStep(buf: bytes)
    requires FirstEnd(buf) < |buf|
    ensures var (cmd, rest) := (Command(buf[..FirstEnd(buf)]), AfterEnd(buf, FirstEnd(buf)));
      Drain(buf) ==
        if cmd == [] then Drain(rest)
        else if IsExit(cmd) then ([cmd], rest, true)
        else ([cmd] + Drain(rest).0, Drain(rest).1, Drain(rest).2)
  {
    hide FirstEnd, Command, IsExit, AfterEnd;
  }

  lemma Regroup(cmds: seq<bytes>, cmd: bytes, more: seq<bytes>)
    ensures cmds + ([cmd] + more) == (cmds + [cmd]) + more
  {
  }

  lemma DrainNothing(cmds: seq<bytes>, buf: bytes)
    requires FirstEnd(buf) == |buf|
    ensures Drain(buf) == ([], buf, false) && cmds + [] == cmds && NoEnd(buf)
  {
    assert buf[..|buf|] == buf;
  }

  lemma FirstEndUnique(b: bytes, i: nat)
    requires i < |b| && IsEnd(b[i]) && NoEnd(b[..i])
    ensures FirstEnd(b) == i
  {
    var f := FirstEnd(b);
    NoEndAt(b, f, i);
    NoEndAt(b, i, f);
  }

  lemma NoEndAt(b: bytes, n: nat, k: nat)
    requires n <= |b|
    ensures NoEnd(b[..n]) && k < n ==> !IsEnd(b[k])
  {
    if k < n {
      assert b[..n][k] == b[k];
    }
  }

  // ---- chunk invariance ------------------------------------------------------------

  /** The complete lines of a stream: what stands before each CR and each LF. */
  function Lines(s: bytes): seq<bytes>
    decreases |s|
  {
    var i := FirstEnd(s);
    if i == |s| then [] else [s[..i]] + Lines(s[i + 1..])
  }

  /** The non-blank lines as commands, up to and including the first exit command. */
  function Commands(lines: seq<bytes>): seq<bytes> {
    if lines == [] then []
    else
      var cmd := Command(lines[0]);
      if cmd == [] then Commands(lines[1..])
      else if IsExit(cmd) then [cmd]
      else [cmd] + Commands(lines[1..])
  }

  function Expected(s: bytes): seq<bytes> {
    Commands(Lines(s))
  }

  /** Where the line of the first exit command ends, or the length. */
  function ExitAt(s: bytes): (e: nat)
    ensures e <= |s|
    decreases |s|
  {
    var i := FirstEnd(s);
    if i == |s| || IsExit(Command(s[..i])) then i else i + 1 + ExitAt(s[i + 1..])
  }

  /** Whatever part of a line is pending while the shell still reads, the next read finds room behind it. */
  predicate LinesFit(s: bytes) {
    forall i, j :: 0 <= i <= j <= ExitAt(s) && NoEnd(s[i..j]) ==> j - i + Min(READ_SIZE, |s| - j) <= BUFFER_CAP
  }

  lemma FirstEndExtends(b: bytes, more: bytes)
    requires FirstEnd(b) < |b|
    ensures FirstEnd(b + more) == FirstEnd(b)
  {
    var i := FirstEnd(b);
    assert (b + more)[..i] == b[..i];
    FirstEndUnique(b + more, i);
  }

  lemma BlankLine()
    ensures Command([]) == []
  {
  }

  /** A leading LF is a blank line, whether or not it is the second half of a CRLF. */
  lemma LeadingLf(s: bytes)
    requires s != [] && s[0] == LF
    ensures Expected(s) == Expected(s[1..])
  {
    BlankLine();
    assert FirstEnd(s) == 0 && s[..0] == [];
    hide Command;
    assert Lines(s) == [[]] + Lines(s[1..]);
  }

  lemma CommandsStep(line: bytes, lines: seq<bytes>)
    ensures var cmd := Command(line);
      Commands([line] + lines) ==
        if cmd == [] then Commands(lines) else if IsExit(cmd) then [cmd] else [cmd] + Commands(lines)
  {
    hide Command, IsExit;
    assert ([line] + lines)[1..] == lines;
  }

  lemma ExpectedLine(s: bytes)
    requires FirstEnd(s) < |s|
    ensures var (cmd, rest) := (Command(s[..FirstEnd(s)]), AfterEnd(s, FirstEnd(s)));
      Expected(s) == if cmd == [] then Expected(rest) else if IsExit(cmd) then [cmd] else [cmd] + Expected(rest)
  {
    hide Command, IsExit, Commands, FirstEnd;
    var i := FirstEnd(s);
    CommandsStep(s[..i], Lines(s[i + 1..]));
    assert Lines(s) == [s[..i]] + Lines(s[i + 1..]);
    hide Lines;
    if s[i] == CR && i + 1 < |s| && s[i + 1] == LF {
      LeadingLf(s[i + 1..]);
      assert s[i + 1..][1..] == s[i + 2..];
    }
  }

  /** When the buffer ends in CR and the LF comes later, the LF costs one blank line. */
  lemma AfterEndExtends(b: bytes, more: bytes, i: nat)
    requires i < |b|
    ensures Expected(AfterEnd(b + more, i)) == Expected(AfterEnd(b, i) + more)
  {
    var all := b + more;
    if b[i] == CR && i + 1 == |b| && more != [] && more[0] == LF {
      assert AfterEnd(all, i) == more[1..] && AfterEnd(b, i) + more == more;
      LeadingLf(more);
    } else {
      assert AfterEnd(all, i) == AfterEnd(b, i) + more;
    }
  }

  /** Draining can pause at any point of the stream. */
  lemma {:induction false} DrainSplit(buf: bytes, more: bytes)
    ensures var (cmds, left, stop) := Drain(buf);
      Expected(buf + more) == if stop then cmds else cmds + Expected(left + more)
    decreases |buf|
  {
    hide Expected, Command, IsExit, AfterEnd, Drain, FirstEnd;
    var i := FirstEnd(buf);
    if i == |buf| {
      DrainNothing([], buf);
      assert [] + Expected(buf + more) == Expected(buf + more);
    } else {
      FirstEndExtends(buf, more);
      ExpectedLine(buf + more);
      AfterEndExtends(buf, more, i);
      assert (buf + more)[..i] == buf[..i];
      DrainStep(buf);
      var cmd, rest := Command(buf[..i]), AfterEnd(buf, i);
      DrainSplit(rest, more);
      var (cmds, left, stop) := Drain(rest);
      assert [cmd] + (cmds + Expected(left + more)) == ([cmd] + cmds) + Expected(left + more);
    }
  }

  lemma {:induction false} DrainLeavesTail(buf: bytes)
    ensures var (cmds, left, stop) := Drain(buf); |left| <= |buf| && left == buf[|buf| - |left|..] && (stop || NoEnd(left))
    decreases |buf|
  {
    hide Command, IsExit, FirstEnd, AfterEnd, NoEnd;
    var i := FirstEnd(buf);
    if i == |buf| {
      DrainNothing([], buf);
    } else {
      DrainLeavesTail(AfterEnd(buf, i));
    }
  }

  lemma LinesFitSuffix(s: bytes, k: nat)
    requires k <= |s| && LinesFit(s) && ExitAt(s) == k + ExitAt(s[k..])
    ensures LinesFit(s[k..])
  {
    hide ExitAt, NoEnd;
    var t := s[k..];
    forall i, j | 0 <= i <= j <= ExitAt(t) && NoEnd(t[i..j]) ensures j - i + Min(READ_SIZE, |t| - j) <= BUFFER_CAP {
      assert t[i..j] == s[k + i..k + j];
    }
  }

  /** No line of at most 15360 bytes, complete or not, leaves too little room. */
  lemma ShortLinesFit(s: bytes)
    requires forall i, j :: 0 <= i <= j <= |s| && NoEnd(s[i..j]) ==> j - i <= 15360
    ensures LinesFit(s)
  {
    hide ExitAt;
  }

  /** A leading LF is a blank line, not an exit. */
  lemma ExitAfterLf(s: bytes)
    requires s != [] && s[0] == LF
    ensures ExitAt(s) == 1 + ExitAt(s[1..])
  {
    BlankLine();
    assert FirstEnd(s) == 0 && s[..0] == [];
    hide Command;
  }

  lemma ExitAtLine(s: bytes)
    requires FirstEnd(s) < |s|
    ensures var (cmd, rest) := (Command(s[..FirstEnd(s)]), AfterEnd(s, FirstEnd(s)));
      ExitAt(s) == if IsExit(cmd) then FirstEnd(s) else |s| - |rest| + ExitAt(rest)
  {
    hide Command, IsExit, FirstEnd, ExitAt;
    var i := FirstEnd(s);
    ExitUnfold(s);
    if s[i] == CR && i + 1 < |s| && s[i + 1] == LF {
      ExitAfterLf(s[i + 1..]);
      assert s[i + 1..][1..] == s[i + 2..];
    }
  }

  lemma ExitUnfold(s: bytes)
    requires FirstEnd(s) < |s|
    ensures var i := FirstEnd(s);
      ExitAt(s) == if IsExit(Command(s[..i])) then i else i + 1 + ExitAt(s[i + 1..])
  {
    hide Command, IsExit, FirstEnd;
  }

  lemma ExitExtends(b: bytes, more: bytes, i: nat)
    requires i < |b|
    ensures |AfterEnd(b + more, i)| - ExitAt(AfterEnd(b + more, i)) ==
      |AfterEnd(b, i) + more| - ExitAt(AfterEnd(b, i) + more)
  {
    hide ExitAt;
    var all := b + more;
    if b[i] == CR && i + 1 == |b| && more != [] && more[0] == LF {
      assert AfterEnd(all, i) == more[1..] && AfterEnd(b, i) + more == more;
      ExitAfterLf(more);
    } else {
      assert AfterEnd(all, i) == AfterEnd(b, i) + more;
    }
  }

  /** Draining stops exactly when the first exit line is complete, and otherwise leaves it ahead. */
  lemma {:induction false} DrainExit(buf: bytes, more: bytes)
    ensures var (cmds, left, stop) := Drain(buf);
      && (stop <==> ExitAt(buf + more) < |buf|)
      && (!stop ==> |left| <= |buf| && ExitAt(buf + more) == |buf| - |left| + ExitAt(left + more))
    decreases |buf|
  {
    hide Command, IsExit, AfterEnd, Drain, ExitAt;
    var i := FirstEnd(buf);
    if i == |buf| {
      DrainNothing([], buf);
      ExitBehind(buf, more);
      hide FirstEnd;
    } else {
      FirstEndExtends(buf, more);
      hide FirstEnd;
      ExitAtLine(buf + more);
      ExitExtends(buf, more, i);
      EmptyIsNoExit();
      assert (buf + more)[..i] == buf[..i];
      DrainStep(buf);
      DrainExit(AfterEnd(buf, i), more);
      DrainLeavesTail(AfterEnd(buf, i));
    }
  }

  lemma EmptyIsNoExit()
    ensures !IsExit([])
  {
  }

  /** An exit line ends behind what holds no line end. */
  lemma ExitBehind(buf: bytes, more: bytes)
    requires FirstEnd(buf) == |buf|
    ensures ExitAt(buf + more) >= |buf|
  {
    hide Command, IsExit;
    var i := FirstEnd(buf + more);
    assert buf[..|buf|] == buf;
    SameAt(buf, more, i);
    NoEndAt(buf, |buf|, i);
  }

  lemma SameAt(buf: bytes, more: bytes, i: nat)
    ensures i < |buf| ==> (buf + more)[i] == buf[i]
  {
  }

  /** However the input is cut into reads, also between a CR and its LF, the commands yielded are
      those of the whole stream. */
  lemma {:induction false} ChunkInvariance(buf: bytes, chunks: seq<bytes>)
    requires NoEnd(buf) && LinesFit(buf + Concat(chunks))
    requires forall c :: c in chunks ==> 1 <= |c| <= READ_SIZE
    ensures Session(buf, chunks) == Expected(buf + Concat(chunks)) && Untrimmed(buf, chunks)
    decreases |chunks|
  {
    hide Drain, Expected, NoEnd, LinesFit, ExitAt;
    if chunks == [] {
      assert buf + Concat(chunks) == buf;
      NoLines(buf);
    } else {
      assert chunks[0] in chunks && forall c :: c in chunks[1..] ==> c in chunks;
      var now, later := buf + chunks[0], Concat(chunks[1..]);
      assert buf + Concat(chunks) == now + later;
      BufferFits(buf, chunks[0], later);
      DrainFits(now, later);
      hide Concat;
      if !Drain(now).2 {
        ChunkInvariance(Drain(now).1, chunks[1..]);
      }
    }
  }

  lemma DrainFits(now: bytes, later: bytes)
    requires LinesFit(now + later)
    ensures var (cmds, left, stop) := Drain(now);
      && Expected(now + later) == (if stop then cmds else cmds + Expected(left + later))
      && (!stop ==> NoEnd(left) && LinesFit(left + later))
  {
    hide Drain, Expected, NoEnd, LinesFit, ExitAt;
    DrainSplit(now, later);
    DrainExit(now, later);
    DrainLeavesTail(now);
    var (cmds, left, stop) := Drain(now);
    if !stop {
      assert left + later == (now + later)[|now| - |left|..];
      LinesFitSuffix(now + later, |now| - |left|);
    }
  }

  lemma EndIsIn(buf: bytes)
    ensures FirstEnd(buf) < |buf| ==> !NoEnd(buf)
  {
    if FirstEnd(buf) < |buf| {
      assert buf[FirstEnd(buf)] in buf;
    }
  }

  lemma NoLines(buf: bytes)
    requires NoEnd(buf)
    ensures Expected(buf) == []
  {
    EndIsIn(buf);
  }

  lemma BufferFits(buf: bytes, chunk: bytes, later: bytes)
    requires NoEnd(buf) && |chunk| <= READ_SIZE && LinesFit(buf + chunk + later)
    ensures |buf + chunk| <= BUFFER_CAP
  {
    hide ExitAt, NoEnd;
    EndIsIn(buf);
    ExitBehind(buf, chunk + later);
    assert buf + chunk + later == buf + (chunk + later);
    assert (buf + chunk + later)[0..|buf|] == buf;
  }

  // ---- when the buffer is trimmed ------------------------------------------------------

  predicate IsChunking(chunks: seq<bytes>, s: bytes) {
    Concat(chunks) == s && forall c :: c in chunks ==> 1 <= |c| <= READ_SIZE
  }

  /** No read makes the buffer overflow. */
  predicate Untrimmed(buf: bytes, chunks: seq<bytes>)
    decreases |chunks|
  {
    chunks == [] ||
    (|buf + chunks[0]| <= BUFFER_CAP &&
     var (cmds, left, stop) := Drain(buf + chunks[0]);
     stop || Untrimmed(left, chunks[1..]))
  }

  /** Draining leaves at least what stands behind the last line end. */
  lemma {:induction false} DrainKeepsRun(buf: bytes, n: nat)
    requires n <= |buf| && NoEnd(buf[|buf| - n..])
    ensures !Drain(buf).2 ==> |Drain(buf).1| >= n
    decreases |buf|
  {
    hide Command, IsExit, FirstEnd;
    var i := FirstEnd(buf);
    if i == |buf| {
    } else {
      RunIsBehind(buf, n, i);
      var rest := AfterEnd(buf, i);
      assert rest[|rest| - n..] == buf[|buf| - n..];
      DrainKeepsRun(rest, n);
      DrainStep(buf);
    }
  }

  lemma RunIsBehind(buf: bytes, n: nat, i: nat)
    requires n <= |buf| && NoEnd(buf[|buf| - n..]) && i < |buf| && IsEnd(buf[i])
    ensures |AfterEnd(buf, i)| >= n
  {
    var run := buf[|buf| - n..];
    RunAt(buf, n, i);
    if i + 1 < |buf| {
      RunAt(buf, n, i + 1);
    }
  }

  lemma RunAt(buf: bytes, n: nat, k: nat)
    requires n <= |buf| && NoEnd(buf[|buf| - n..]) && k < |buf|
    ensures IsEnd(buf[k]) ==> k < |buf| - n
  {
    if k >= |buf| - n {
      assert buf[k] == buf[|buf| - n..][k - (|buf| - n)];
    }
  }

  /** As long as nothing is trimmed and no exit line is complete, the buffer holds at least the line that
      is pending. */
  lemma {:induction false} PendingLine(buf: bytes, chunks: seq<bytes>, later: seq<bytes>, n: nat) returns (left: bytes)
    requires Untrimmed(buf, chunks + later) && ExitAt(buf + Concat(chunks + later)) >= |buf + Concat(chunks)|
    requires n <= |buf + Concat(chunks)| && NoEnd((buf + Concat(chunks))[|buf + Concat(chunks)| - n..])
    ensures |left| >= n && Untrimmed(left, later)
    decreases |chunks|
  {
    hide Drain, ExitAt, NoEnd;
    if chunks == [] {
      assert chunks + later == later && buf + Concat(chunks) == buf;
      left := buf;
    } else {
      var now, between := buf + chunks[0], Concat(chunks[1..]);
      PendingRead(buf, chunks, later);
      PendingStep(now, between, Concat(chunks[1..] + later), n);
      left := PendingLine(Drain(now).1, chunks[1..], later, n);
    }
  }

  lemma PendingRead(buf: bytes, chunks: seq<bytes>, later: seq<bytes>)
    requires chunks != [] && Untrimmed(buf, chunks + later)
    ensures var (now, rest) := (buf + chunks[0], chunks[1..] + later);
      && buf + Concat(chunks + later) == now + Concat(rest) && buf + Concat(chunks) == now + Concat(chunks[1..])
      && (!Drain(now).2 ==> Untrimmed(Drain(now).1, rest))
  {
    hide Drain, Concat;
    var all := chunks + later;
    assert all[0] == chunks[0] && all[1..] == chunks[1..] + later;
    ConcatHead(buf, all);
    ConcatHead(buf, chunks);
  }

  lemma PendingStep(now: bytes, between: bytes, rest: bytes, n: nat)
    requires ExitAt(now + rest) >= |now + between|
    requires n <= |now + between| && NoEnd((now + between)[|now + between| - n..])
    ensures var (cmds, left, stop) := Drain(now);
      && !stop && ExitAt(left + rest) >= |left + between|
      && n <= |left + between| && NoEnd((left + between)[|left + between| - n..])
  {
    hide Drain, ExitAt, NoEnd;
    var left := Drain(now).1;
    var m := if n > |between| then n - |between| else 0;
    DrainExit(now, rest);
    RunSplits(now, between, n, m);
    DrainKeepsRun(now, m);
    DrainLeavesTail(now);
    TailOfTail(now, left, between, n);
  }

  lemma RunSplits(now: bytes, more: bytes, n: nat, m: nat)
    requires n <= |now + more| && NoEnd((now + more)[|now + more| - n..])
    requires m == if n > |more| then n - |more| else 0
    ensures m <= |now| && NoEnd(now[|now| - m..])
  {
    var run := (now + more)[|now + more| - n..];
    forall c | c in now[|now| - m..] ensures c in run {
      if m > 0 {
        assert run[..m] == now[|now| - m..];
      }
    }
  }

  lemma TailOfTail(now: bytes, left: bytes, more: bytes, n: nat)
    requires |left| <= |now| && left == now[|now| - |left|..] && n <= |left + more|
    ensures (left + more)[|left + more| - n..] == (now + more)[|now + more| - n..]
  {
    assert (now + more)[|now| - |left|..] == left + more;
  }

  /** A line without room behind it at `j` overflows under a cut that reads on from there. */
  lemma SomeCutTrims(s: bytes, i: nat, j: nat) returns (chunks: seq<bytes>)
    requires i <= j <= ExitAt(s) && j < |s| && NoEnd(s[i..j])
    requires j - i + Min(READ_SIZE, |s| - j) > BUFFER_CAP
    ensures IsChunking(chunks, s) && !Untrimmed([], chunks)
  {
    hide ExitAt, NoEnd, Concat, Cut, Untrimmed;
    var before, later := CutAt(s, READ_SIZE, j, Min(READ_SIZE, |s| - j));
    chunks := before + later;
    hide IsChunking;
    assert [] + Concat(before) == s[..j] && [] + Concat(chunks) == s by { IsChunkingOf(chunks, s); }
    assert s[..j][j - (j - i)..] == s[i..j];
    if Untrimmed([], chunks) {
      var left := PendingLine([], before, later, j - i);
      NextReadFits(left, later);
    }
  }

  lemma IsChunkingOf(chunks: seq<bytes>, s: bytes)
    requires IsChunking(chunks, s)
    ensures Concat(chunks) == s
  {
  }

  lemma NextReadFits(buf: bytes, chunks: seq<bytes>)
    requires Untrimmed(buf, chunks) && chunks != []
    ensures |buf| + |chunks[0]| <= BUFFER_CAP
  {
    hide Drain;
  }

  /** Exactly when the cap can be ignored: no cut overflows the buffer if and only if every pending part
      of a line, up to the end of the first exit line, leaves room for the next read. */
  lemma NeverTrimmedIff(s: bytes)
    ensures (forall chunks | IsChunking(chunks, s) :: Untrimmed([], chunks)) <==> LinesFit(s)
  {
    hide ExitAt, NoEnd, Session, Untrimmed;
    if LinesFit(s) {
      forall chunks | IsChunking(chunks, s) ensures Untrimmed([], chunks) {
        assert [] + Concat(chunks) == s;
        EmptyHasNoEnd();
        ChunkInvariance([], chunks);
      }
    } else {
      var i, j :| 0 <= i <= j <= ExitAt(s) && NoEnd(s[i..j]) && j - i + Min(READ_SIZE, |s| - j) > BUFFER_CAP;
      if j == |s| {
        NoEndInit(s[i..j]);
        assert s[i..j][..j - 1 - i] == s[i..j - 1];
        j := j - 1;
      }
      var chunks := SomeCutTrims(s, i, j);
    }
  }

  lemma EmptyHasNoEnd()
    ensures NoEnd([])
  {
  }

  lemma NoEndInit(b: bytes)
    requires b != [] && NoEnd(b)
    ensures NoEnd(b[..|b| - 1])
  {
  }

  /** A line that a read overflows is taken without its first 8192 bytes. It may be as short as 15361
      bytes when the read brings 1024. */
  lemma LongLineDamaged(line: bytes, chunks: seq<bytes>, more: bytes)
    requires NoEnd(line) && NoEnd(more) && IsChunking(chunks, line)
    requires |line| <= 16384 < |line| + 1 + |more| && |more| < 1024
    ensures var s := line + ([LF] + more);
      && IsChunking(chunks + [[LF] + more], s)
      && Session([], chunks + [[LF] + more]) == Commands([line[8192..]])
      && Expected(s) == Commands([line])
  {
    hide NoEnd, Session, Drain, Expected, Commands;
    var last := [LF] + more;
    PiecesOfLine(line);
    ConcatOne(chunks, last);
    assert [] + line == line;
    GrowBuffer([], chunks, [last]);
    LastRead(line, last);
    OneLine(line, more);
    OneLine(line[DROPPED..], more);
    assert Cap(line + last) == line[DROPPED..] + last;
  }

  lemma ConcatOne(chunks: seq<bytes>, last: bytes)
    ensures Concat(chunks + [last]) == Concat(chunks) + last
  {
    var one: seq<bytes> := [last];
    assert one[1..] == [] && Concat(one) == last + [] == last;
    ConcatSplit(chunks, one);
  }

  lemma LastRead(buf: bytes, last: bytes)
    requires last != []
    ensures Session(buf, [last]) == Drain(Cap(buf + last)).0
  {
    hide Drain, Cap;
    var one: seq<bytes> := [last];
    var (cmds, left, stop) := Drain(Cap(buf + last));
    assert one[1..] == [] && Session(left, []) == [];
  }

  function Letters(c: byte, n: nat): (b: bytes)
    ensures |b| == n && forall x :: x in b ==> x == c
  {
    seq(n, _ => c)
  }

  /** 8192 times a, 7169 times b, a line end, and 1023 more bytes: of all cuts, one records a command
      of b's and the stream as a whole has one of a's. */
  lemma DamageIsVisible() returns (s: bytes, chunks: seq<bytes>)
    ensures IsChunking(chunks, s) && Session([], chunks) != Expected(s)
    ensures forall i, j :: 0 <= i <= j <= |s| && NoEnd(s[i..j]) ==> j - i <= 15361
  {
    hide NoEnd, Session, Expected, Cut, Commands;
    var a, b, c := Letters(97, DROPPED), Letters(98, 7169), Letters(99, READ_SIZE - 1);
    var line := a + b;
    s, chunks := line + ([LF] + c), Cut(line, READ_SIZE) + [[LF] + c];
    assert NoEnd(line) && NoEnd(c) by { OtherLetters(line); OtherLetters(c); }
    LongLineDamaged(line, Cut(line, READ_SIZE), c);
    assert line[DROPPED..] == b && line[0] == a[0] && a[0] in a && b[0] in b;
    LongestRun(line, c);
    Heads(line, b);
  }

  lemma OtherLetters(b: bytes)
    requires forall x :: x in b ==> x >= 97
    ensures NoEnd(b)
  {
  }

  lemma PlainLine(b: bytes)
    requires forall x :: x in b ==> 97 <= x <= 98
    ensures StripRight(StripLeft(b)) == b
  {
    PlainStart(b);
    forall k | 0 <= k <= |b| ensures BlankLength(b[k..]) == 0 {
      assert forall x :: x in b[k..] ==> x in b;
      PlainStart(b[k..]);
    }
    hide BlankLength;
  }

  lemma PlainStart(b: bytes)
    requires forall x :: x in b ==> 97 <= x <= 98
    ensures BlankLength(b) == 0
  {
    if b != [] {
      assert b[0] in b;
    }
  }

  /** The command of a line of text is its first 4096 characters, stripped. */
  lemma CommandOfText(text: seq<Rune>)
    ensures Command(EncodeText(text)) == Strip(EncodeText(if |text| > 4096 then text[..4096] else text))
  {
    hide Strip, EncodeText, TakeChars;
    TakeCharsOfText(text, 4096);
    assert |text| == 4096 ==> text[..4096] == text;
  }

  lemma LetterCommand(line: bytes)
    requires |line| > MAX_COMMAND && forall x :: x in line ==> 97 <= x <= 98
    ensures Command(line) == line[..MAX_COMMAND]
  {
    var head := line[..MAX_COMMAND];
    assert forall x :: x in head ==> x in line;
    TakeAscii(line, MAX_COMMAND);
    hide TakeChars, StripLeft, StripRight;
    PlainLine(head);
  }

  /** Two commands of different letters are different lists of commands. */
  lemma Heads(a: bytes, b: bytes)
    requires |a| > MAX_COMMAND && |b| > MAX_COMMAND && a[0] != b[0]
    requires (forall x :: x in a ==> 97 <= x <= 98) && (forall x :: x in b ==> 97 <= x <= 98)
    ensures Commands([a]) != Commands([b])
  {
    LetterCommand(a);
    LetterCommand(b);
    assert a[..MAX_COMMAND][0] == a[0] && b[..MAX_COMMAND][0] == b[0];
    hide Command, IsExit, Commands;
    FirstCommand(a);
    FirstCommand(b);
  }

  lemma FirstCommand(line: bytes)
    requires Command(line) != []
    ensures Commands([line]) == [Command(line)]
  {
    hide Command, IsExit;
    var rest: seq<bytes> := [line][1..];
    assert rest == [] && Commands(rest) == [];
  }

  lemma LongestRun(line: bytes, more: bytes)
    requires |line| == BUFFER_CAP - READ_SIZE + 1 && |more| < READ_SIZE
    ensures var s := line + ([LF] + more);
      forall i, j :: 0 <= i <= j <= |s| && NoEnd(s[i..j]) ==> j - i <= BUFFER_CAP - READ_SIZE + 1
  {
    var s := line + ([LF] + more);
    forall i, j | 0 <= i <= j <= |s| && NoEnd(s[i..j]) ensures j - i <= |line| {
      NoEndInside(s, i, j, |line|);
      assert s[|line|] == LF;
    }
  }

  lemma NoEndInside(s: bytes, i: nat, j: nat, k: nat)
    requires i <= j <= |s| && k < |s|
    ensures NoEnd(s[i..j]) && i <= k < j ==> !IsEnd(s[k])
  {
    if i <= k < j {
      assert s[i..j][k - i] == s[k];
    }
  }

  lemma PiecesOfLine(line: bytes)
    requires NoEnd(line)
    ensures |line| >= DROPPED ==> NoEnd(line[DROPPED..])
  {
  }

  lemma DrainNothingOf(buf: bytes)
    requires NoEnd(buf)
    ensures Drain(buf) == ([], buf, false)
  {
    EndIsIn(buf);
  }

  lemma OneLine(line: bytes, more: bytes)
    requires NoEnd(line) && NoEnd(more)
    ensures var s := line + ([LF] + more); Expected(s) == Commands([line]) && Drain(s).0 == Commands([line])
  {
    var s := line + ([LF] + more);
    assert s[..|line|] == line && s[|line| + 1..] == more;
    FirstEndUnique(s, |line|);
    EndIsIn(more);
    assert Lines(s) == [line] + Lines(more) && Lines(more) == [];
    DrainNothing([], more);
    DrainStep(s);
    hide Command, IsExit, Lines, Drain;
    CommandsStep(line, []);
    assert [line] + [] == [line];
  }

  /** Reads without a line end only make the buffer grow. */
  lemma {:induction false} GrowBuffer(buf: bytes, chunks: seq<bytes>, later: seq<bytes>)
    requires NoEnd(buf + Concat(chunks)) && |buf + Concat(chunks)| <= BUFFER_CAP
    requires forall c :: c in chunks ==> c != []
    ensures Session(buf, chunks + later) == Session(buf + Concat(chunks), later)
    decreases |chunks|
  {
    if chunks == [] {
      assert buf + Concat(chunks) == buf && chunks + later == later;
    } else {
      assert chunks[0] in chunks && forall c :: c in chunks[1..] ==> c in chunks;
      var now := buf + chunks[0];
      assert buf + Concat(chunks) == now + Concat(chunks[1..]);
      assert (chunks + later)[1..] == chunks[1..] + later;
      DrainNothingOf(now);
      GrowBuffer(now, chunks[1..], later);
    }
  }

  // ---- which lines end the session ---------------------------------------------------------

  /** `word` stands at the start of `cmd`, with a blank or nothing behind it. */
  predicate Starts(cmd: bytes, word: string) {
    && |word| <= |cmd| && (forall i :: 0 <= i < |word| ==> cmd[i] == word[i] as int)
    && (|cmd| == |word| || BlankLength(cmd[|word|..]) > 0)
  }

  lemma {:induction false} FirstWordIs(cmd: bytes, word: bytes)
    requires word != [] && forall c :: c in word ==> 97 <= c <= 122
    ensures FirstWord(cmd) == word <==>
      word <= cmd && (|cmd| == |word| || BlankLength(cmd[|word|..]) > 0)
  {
    assert word[0] in word;
    if cmd == [] || BlankLength(cmd) > 0 {
    } else if cmd[0] != word[0] {
      assert FirstWord(cmd)[0] == cmd[0];
    } else if |word| == 1 {
      FirstWordEmpty(cmd[1..]);
      assert FirstWord(cmd) == [cmd[0]] + FirstWord(cmd[1..]);
      assert FirstWord(cmd) == word <==> FirstWord(cmd[1..]) == [];
    } else {
      assert word == [word[0]] + word[1..] && cmd == [cmd[0]] + cmd[1..];
      forall c | c in word[1..] ensures 97 <= c <= 122 {
        assert c in word;
      }
      FirstWordIs(cmd[1..], word[1..]);
      assert FirstWord(cmd) == word <==> FirstWord(cmd[1..]) == word[1..];
      assert |cmd| >= |word| ==> cmd[1..][|word| - 1..] == cmd[|word|..];
    }
  }

  lemma FirstWordEmpty(b: bytes)
    ensures FirstWord(b) == [] <==> b == [] || BlankLength(b) > 0
  {
  }

  /** The session ends for exactly these commands; their case matters. */
  lemma ExitIff(cmd: bytes)
    ensures IsExit(cmd) <==> Starts(cmd, "exit") || Starts(cmd, "logout") || Starts(cmd, "quit")
  {
    FirstWordIs(cmd, EXIT);
    FirstWordIs(cmd, LOGOUT);
    FirstWordIs(cmd, QUIT);
    hide FirstWord, BlankLength;
    WordStarts(cmd, EXIT, "exit");
    WordStarts(cmd, LOGOUT, "logout");
    WordStarts(cmd, QUIT, "quit");
  }

  lemma WordStarts(cmd: bytes, word: bytes, text: string)
    requires |word| == |text| && forall i :: 0 <= i < |word| ==> word[i] == text[i] as int
    ensures Starts(cmd, text) <==> word <= cmd && (|cmd| == |word| || BlankLength(cmd[|word|..]) > 0)
  {
    hide BlankLength;
    assert word <= cmd <==> |word| <= |cmd| && forall i :: 0 <= i < |word| ==> cmd[i] == word[i];
  }
}

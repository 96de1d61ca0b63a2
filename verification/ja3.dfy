/** The TLS ClientHello parser behind the JA3 fingerprint (services/http/ja3.py). */
module Ja3 {
  import opened Bytes
  import opened Numbers

  const HANDSHAKE_RECORD: byte := 0x16
  const CLIENT_HELLO: byte := 0x01
  const SERVER_NAME := 0x0000
  const SUPPORTED_GROUPS := 0x000A
  const EC_POINT_FORMATS := 0x000B

  const GREASE: set<int> :=
    {0x0A0A, 0x1A1A, 0x2A2A, 0x3A3A, 0x4A4A, 0x5A5A, 0x6A6A, 0x7A7A,
     0x8A8A, 0x9A9A, 0xAAAA, 0xBABA, 0xCACA, 0xDADA, 0xEAEA, 0xFAFA}

  function StripGrease(values: seq<nat>): (r: seq<nat>)
    ensures forall i :: 0 <= i < |r| ==> r[i] in values && r[i] !in GREASE
  {
    if values == [] then []
    else
      var rest := StripGrease(values[..|values| - 1]);
      var v := values[|values| - 1];
      if v in GREASE then rest else rest + [v]
  }

  /** What the walk over the extensions has collected so far. */
  datatype Seen = Seen(extensions: seq<nat>, curves: seq<nat>, formats: seq<nat>, sni: Option<bytes>)

  /** The five fields of the JA3 string. */
  datatype Ja3 = Ja3(version: nat, ciphers: seq<nat>, extensions: seq<nat>, curves: seq<nat>, formats: seq<nat>)

  /** The structural checks that make the parser give up. */
  datatype Reason = NoRecord | NoClientHello | NoVersion | NoSessionId | NoCiphers | BadCiphers | NoCompression

  /** `Raised` is the struct.error that `compute_ja3` turns into None, like `Rejected`. */
  datatype Outcome = Parsed(ja3: Ja3, sni: Option<bytes>) | Rejected(why: Reason) | Raised

  // ---- specification -------------------------------------------------------

  /** The 16-bit numbers that `b[from..]` starts with. */
  function U16s(b: bytes, from: nat, count: nat): (r: seq<nat>)
    requires from + 2 * count <= |b|
    ensures |r| == count
    ensures forall i :: 0 <= i < count ==> r[i] == U16At(b, from + 2 * i)
  {
    if count == 0 then [] else U16s(b, from, count - 1) + [U16At(b, from + 2 * (count - 1))]
  }

  /** A supported_groups list is read in pairs, so its length counts as rounded up to even. */
  predicate GroupsOverrun(data: bytes)
    requires |data| >= 2
  {
    2 + 2 * ((U16At(data, 0) + 1) / 2) > |data|
  }

  /** One extension; None when reading it raises. */
  function Note(kind: nat, data: bytes, seen: Seen): Option<Seen> {
    var s := seen.(extensions := seen.extensions + [kind]);
    if kind == SUPPORTED_GROUPS && |data| >= 2 then
      if GroupsOverrun(data) then None
      else Some(s.(curves := U16s(data, 2, (U16At(data, 0) + 1) / 2)))
    else if kind == EC_POINT_FORMATS && |data| >= 1 then
      Some(s.(formats := Slice(data, 1, 1 + U8At(data, 0))))
    else if kind == SERVER_NAME && |data| >= 5 then
      var name := Slice(data, 5, 5 + U16At(data, 3));
      Some(s.(sni := if name == [] then None else Some(name)))
    else Some(s)
  }

  function Walk(buf: bytes, pos: nat, extEnd: nat, seen: Seen): Option<Seen>
    requires extEnd <= |buf|
    decreases extEnd - pos
  {
    if pos + 4 > extEnd then Some(seen)
    else
      var len := U16At(buf, pos + 2);
      match Note(U16At(buf, pos), Slice(buf, pos + 4, pos + 4 + len), seen)
      case None => None
      case Some(s) => Walk(buf, pos + 4 + len, extEnd, s)
  }

  const NOTHING := Seen([], [], [], None)

  function Finish(version: nat, ciphers: seq<nat>, seen: Option<Seen>): Outcome {
    match seen
    case None => Raised
    case Some(s) =>
      Parsed(Ja3(version, StripGrease(ciphers), StripGrease(s.extensions), StripGrease(s.curves), s.formats), s.sni)
  }

  /** The extensions block at `pos`; a hello may end before it. */
  function WalkBlock(buf: bytes, pos: nat, end: nat): Option<Seen>
    requires end <= |buf|
  {
    if pos + 2 > end then Some(NOTHING)
    else Walk(buf, pos + 2, Min(end, pos + 2 + U16At(buf, pos)), NOTHING)
  }

  /** From the cipher suites on. */
  function ParseCiphers(buf: bytes, pos: nat, end: nat, version: nat): Outcome
    requires end <= |buf|
  {
    if pos + 2 > end then Rejected(NoCiphers)
    else
      var len := U16At(buf, pos);
      if pos + 2 + len > end || len % 2 != 0 then Rejected(BadCiphers)
      else
        var comp := pos + 2 + len;
        if comp + 1 > end then Rejected(NoCompression)
        else Finish(version, U16s(buf, pos + 2, len / 2), WalkBlock(buf, comp + 1 + U8At(buf, comp), end))
  }

  function Parse(buf: bytes): Outcome {
    if |buf| < 5 || buf[0] != HANDSHAKE_RECORD then Rejected(NoRecord)
    else
      var end := Min(|buf|, 5 + U16At(buf, 3));
      if 9 > end || buf[5] != CLIENT_HELLO then Rejected(NoClientHello)
      else if 11 > end then Rejected(NoVersion)
      else if 44 > end then Rejected(NoSessionId)
      else ParseCiphers(buf, 44 + U8At(buf, 43), end, U16At(buf, 9))
  }

  // ---- the parser as written ------------------------------------------------

  method ComputeJa3(buf: bytes) returns (r: Outcome)
    ensures r == Parse(buf)
  {
    hide StripGrease, Walk;
    if |buf| < 5 || buf[0] != HANDSHAKE_RECORD { return Rejected(NoRecord); }
    var pos := 5;
    var end := Min(|buf|, 5 + U16At(buf, 3));
    if pos + 4 > end || buf[pos] != CLIENT_HELLO { return Rejected(NoClientHello); }
    pos := pos + 4;
    if pos + 2 > end { return Rejected(NoVersion); }
    var version := U16At(buf, pos);
    pos := pos + 2;
    pos := pos + 32;
    if pos + 1 > end { return Rejected(NoSessionId); }
    var sidLen := U8At(buf, pos);
    pos := pos + 1 + sidLen;
    if pos + 2 > end { return Rejected(NoCiphers); }
    var ciphersLen := U16At(buf, pos);
    pos := pos + 2;
    if pos + ciphersLen > end || ciphersLen % 2 != 0 { return Rejected(BadCiphers); }
    var ciphers := ReadU16s(buf, pos, ciphersLen);
    pos := pos + ciphersLen;
    if pos + 1 > end { return Rejected(NoCompression); }
    var compLen := U8At(buf, pos);
    pos := pos + 1 + compLen;
    var seen := Some(NOTHING);
    if pos + 2 <= end {
      var extTotal := U16At(buf, pos);
      seen := WalkExtensions(buf, pos + 2, Min(end, pos + 2 + extTotal));
    }
    return Finish(version, ciphers, seen);
  }

  /** The big-endian 16-bit numbers of a list of even length. */
  method ReadU16s(b: bytes, from: nat, len: nat) returns (r: seq<nat>)
    requires from + len <= |b| && len % 2 == 0
    ensures r == U16s(b, from, len / 2)
  {
    r := [];
    var i := 0;
    while i < len
      invariant 0 <= i <= len && i % 2 == 0 && r == U16s(b, from, i / 2)
    {
      r := r + [U16At(b, from + i)];
      i := i + 2;
    }
  }

  /** The while loop over the extensions; None when it raises. */
  method WalkExtensions(buf: bytes, start: nat, extEnd: nat) returns (seen: Option<Seen>)
    requires extEnd <= |buf|
    ensures seen == Walk(buf, start, extEnd, NOTHING)
  {
    hide Note, Slice, U16At;
    var pos, s := start, NOTHING;
    while pos + 4 <= extEnd
      invariant Walk(buf, pos, extEnd, s) == Walk(buf, start, extEnd, NOTHING)
      decreases extEnd - pos
    {
      var kind, len := U16At(buf, pos), U16At(buf, pos + 2);
      pos := pos + 4;
      var data := Slice(buf, pos, pos + len);
      pos := pos + len;
      var noted := NoteExtension(kind, data, s);
      if noted == None { return None; }
      s := noted.value;
    }
    return Some(s);
  }

  /** The body of that loop. */
  method NoteExtension(kind: nat, data: bytes, seen: Seen) returns (r: Option<Seen>)
    ensures r == Note(kind, data, seen)
  {
    var s := seen.(extensions := seen.extensions + [kind]);
    if kind == SUPPORTED_GROUPS && |data| >= 2 {
      var curvesLen := U16At(data, 0);
      var curves: seq<nat> := [];
      var i := 0;
      while i < curvesLen
        invariant 0 <= i <= curvesLen + 1 && i % 2 == 0 && 2 + i <= |data|
        invariant curves == U16s(data, 2, i / 2)
      {
        if 2 + i + 2 > |data| { return None; }    // unpack of a short slice raises
        curves := curves + [U16At(data, 2 + i)];
        i := i + 2;
      }
      s := s.(curves := curves);
    } else if kind == EC_POINT_FORMATS && |data| >= 1 {
      s := s.(formats := Slice(data, 1, 1 + U8At(data, 0)));
    } else if kind == SERVER_NAME && |data| >= 5 {
      var name := Slice(data, 5, 5 + U16At(data, 3));
      s := s.(sni := if name == [] then None else Some(name));
    }
    return Some(s);
  }

  // ---- totality ----------------------------------------------------------------

  /** The extensions that the walk comes across, whatever they contain. */
  function Extensions(buf: bytes, pos: nat, extEnd: nat): seq<(nat, bytes)>
    requires extEnd <= |buf|
    decreases extEnd - pos
  {
    if pos + 4 > extEnd then []
    else
      var len := U16At(buf, pos + 2);
      [(U16At(buf, pos), Slice(buf, pos + 4, pos + 4 + len))] + Extensions(buf, pos + 4 + len, extEnd)
  }

  predicate Overruns(e: (nat, bytes)) {
    e.0 == SUPPORTED_GROUPS && |e.1| >= 2 && GroupsOverrun(e.1)
  }

  lemma {:induction false} WalkRaisesIff(buf: bytes, pos: nat, extEnd: nat, seen: Seen)
    requires extEnd <= |buf|
    ensures Walk(buf, pos, extEnd, seen) == None <==> exists e :: e in Extensions(buf, pos, extEnd) && Overruns(e)
    decreases extEnd - pos
  {
    hide U16s, Slice;
    if pos + 4 <= extEnd {
      var len := U16At(buf, pos + 2);
      var e := (U16At(buf, pos), Slice(buf, pos + 4, pos + 4 + len));
      var rest := Extensions(buf, pos + 4 + len, extEnd);
      assert Extensions(buf, pos, extEnd) == [e] + rest;
      assert Note(e.0, e.1, seen) == None <==> Overruns(e);
      if Note(e.0, e.1, seen).Some? {
        WalkRaisesIff(buf, pos + 4 + len, extEnd, Note(e.0, e.1, seen).value);
      } else {
        assert e in Extensions(buf, pos, extEnd);
      }
    }
  }

  /** The part of a record that passes every structural check and carries extensions. */
  predicate ReachesExtensions(buf: bytes, block: nat, end: nat) {
    && |buf| >= 44 && end == Min(|buf|, 5 + U16At(buf, 3)) && end >= 44
    && buf[0] == HANDSHAKE_RECORD && buf[5] == CLIENT_HELLO
    && var ciphers := 44 + U8At(buf, 43);
    && ciphers + 2 <= end && U16At(buf, ciphers) % 2 == 0
    && var comp := ciphers + 2 + U16At(buf, ciphers);
    && comp + 1 <= end && block == comp + 1 + U8At(buf, comp) && block + 2 <= end
  }

  predicate BlockOverruns(buf: bytes, block: nat, end: nat)
    requires block + 2 <= end <= |buf|
  {
    exists e :: e in Extensions(buf, block + 2, Min(end, block + 2 + U16At(buf, block))) && Overruns(e)
  }

  lemma WalkBlockRaisesIff(buf: bytes, block: nat, end: nat)
    requires block + 2 <= end <= |buf|
    ensures WalkBlock(buf, block, end) == None <==> BlockOverruns(buf, block, end)
  {
    WalkRaisesIff(buf, block + 2, Min(end, block + 2 + U16At(buf, block)), NOTHING);
  }

  lemma RaisedWhenReached(buf: bytes, block: nat, end: nat)
    requires ReachesExtensions(buf, block, end)
    ensures Parse(buf) == Raised <==> WalkBlock(buf, block, end) == None
  {
    hide WalkBlock, StripGrease, U16s;
  }

  lemma RaisedReaches(buf: bytes) returns (block: nat, end: nat)
    requires Parse(buf) == Raised
    ensures ReachesExtensions(buf, block, end)
  {
    hide Walk, StripGrease, U16s;
    end := Min(|buf|, 5 + U16At(buf, 3));
    var ciphers := 44 + U8At(buf, 43);
    var comp := ciphers + 2 + U16At(buf, ciphers);
    block := comp + 1 + U8At(buf, comp);
  }

  /** The record gets as far as an extensions block at `block` that holds an overrunning list. */
  predicate HoldsOverrun(buf: bytes, block: nat, end: nat) {
    ReachesExtensions(buf, block, end) && BlockOverruns(buf, block, end)
  }

  /** On every byte string the only way to raise is a supported_groups list that overruns its
      extension; all other rejections are structural checks. */
  lemma RaisedIff(buf: bytes)
    ensures Parse(buf) == Raised <==> exists block: nat, end: nat :: HoldsOverrun(buf, block, end)
  {
    hide Parse, BlockOverruns, WalkBlock;
    if Parse(buf) == Raised {
      var block, end := RaisedReaches(buf);
      RaisedWhenReached(buf, block, end);
      WalkBlockRaisesIff(buf, block, end);
      assert HoldsOverrun(buf, block, end);
    }
    if block: nat, end: nat :| HoldsOverrun(buf, block, end) {
      RaisedWhenReached(buf, block, end);
      WalkBlockRaisesIff(buf, block, end);
    }
  }

  function GreaseValue(n: nat): nat {
    256 * (16 * n + 10) + (16 * n + 10)
  }

  /** RFC 8701: a GREASE value is a byte 0xNA written twice, for one of the 16 digits N. */
  lemma GreasePattern(v: nat)
    ensures v in GREASE <==> exists n :: 0 <= n < 16 && v == GreaseValue(n)
  {
    if v in GREASE {
      var n := (v - 10) / 4112;
      assert v == GreaseValue(n);
    }
  }

  // ---- which records are rejected ------------------------------------------------------------

  /** The part of a record that lies in the buffer, by the length in its header. */
  function Within(buf: bytes): bytes
    requires |buf| >= 5
  {
    buf[..Min(|buf|, 5 + U16At(buf, 3))]
  }

  /** `rec` starts with the fixed fields of a ClientHello, 43 bytes, then a session id, a list of two-byte
      cipher suites, each behind its length, and at least the length of the compression methods. */
  predicate Carries(rec: bytes, sid: bytes, suites: bytes) {
    && |rec| >= 43 && rec[0] == 22 && rec[5] == 1
    && |sid| < 256 && |suites| < 65536 && |suites| % 2 == 0
    && rec[..43] + [|sid|] + sid + [|suites| / 256, |suites| % 256] + suites < rec
  }

  /** The parser gives up exactly on what is not such a record, be it cut short or of odd length. */
  lemma RejectedIff(buf: bytes)
    ensures Parse(buf).Rejected? <==> |buf| < 5 || !exists sid, suites :: Carries(Within(buf), sid, suites)
  {
    if !Parse(buf).Rejected? {
      var sid, suites := Accepted(buf);
    }
    if |buf| >= 5 {
      forall sid, suites | Carries(Within(buf), sid, suites) ensures !Parse(buf).Rejected? {
        Accepts(buf, sid, suites);
      }
    }
  }

  lemma Accepted(buf: bytes) returns (sid: bytes, suites: bytes)
    requires !Parse(buf).Rejected?
    ensures |buf| >= 5 && Carries(Within(buf), sid, suites)
  {
    hide Walk, StripGrease, U16s, WalkBlock, Finish;
    var rec := Within(buf);
    var n := U8At(buf, 43);
    var c := 44 + n;
    var len := U16At(buf, c);
    sid, suites := rec[44..c], rec[c + 2..c + 2 + len];
    assert [len / 256, len % 256] == rec[c..c + 2];
    assert rec[..43] + [n] + sid + rec[c..c + 2] + suites == rec[..c + 2 + len];
  }

  /** Where those fields stand. */
  lemma CarriedAt(buf: bytes, sid: bytes, suites: bytes)
    requires |buf| >= 5 && Carries(Within(buf), sid, suites)
    ensures var (end, c) := (|Within(buf)|, 44 + |sid|);
      && end == Min(|buf|, 5 + U16At(buf, 3)) && c + 2 + |suites| < end && |suites| % 2 == 0
      && buf[0] == HANDSHAKE_RECORD && buf[5] == CLIENT_HELLO
      && U8At(buf, 43) == |sid| && U16At(buf, c) == |suites| && buf[c + 2..c + 2 + |suites|] == suites
  {
    var rec, c := Within(buf), 44 + |sid|;
    var head := rec[..43] + [|sid|] + sid + [|suites| / 256, |suites| % 256];
    assert head[43] == |sid| && head[c] == |suites| / 256 && head[c + 1] == |suites| % 256 && |head| == c + 2;
    assert rec[43] == (head + suites)[43] && rec[c] == (head + suites)[c] && rec[c + 1] == (head + suites)[c + 1];
    assert rec[43] == buf[43] && rec[c] == buf[c] && rec[c + 1] == buf[c + 1];
    assert (head + suites)[c + 2..] == suites;
    assert rec[..|head + suites|] == head + suites && buf[..|head + suites|] == rec[..|head + suites|];
    assert buf[..|head + suites|][c + 2..] == buf[c + 2..c + 2 + |suites|];
  }

  lemma Accepts(buf: bytes, sid: bytes, suites: bytes)
    requires |buf| >= 5 && Carries(Within(buf), sid, suites)
    ensures Parse(buf) == ParseCiphers(buf, 44 + |sid|, |Within(buf)|, U16At(buf, 9)) && !Parse(buf).Rejected?
  {
    CarriedAt(buf, sid, suites);
    hide Within, Walk, StripGrease, U16s, WalkBlock, U16At;
  }

  /** The types of a list of extensions. */
  function Kinds(es: seq<(nat, bytes)>): seq<nat> {
    if es == [] then [] else [es[0].0] + Kinds(es[1..])
  }

  lemma NoteKind(kind: nat, data: bytes, seen: Seen)
    ensures Note(kind, data, seen).Some? ==> Note(kind, data, seen).value.extensions == seen.extensions + [kind]
  {
    hide U16s, Slice, U16At, GroupsOverrun;
  }

  lemma {:induction false} WalkKinds(buf: bytes, pos: nat, extEnd: nat, seen: Seen)
    requires extEnd <= |buf| && Walk(buf, pos, extEnd, seen).Some?
    ensures Walk(buf, pos, extEnd, seen).value.extensions == seen.extensions + Kinds(Extensions(buf, pos, extEnd))
    decreases extEnd - pos
  {
    hide Note, Slice, U16At;
    if pos + 4 <= extEnd {
      var len := U16At(buf, pos + 2);
      var e := (U16At(buf, pos), Slice(buf, pos + 4, pos + 4 + len));
      var rest := Extensions(buf, pos + 4 + len, extEnd);
      assert Extensions(buf, pos, extEnd) == [e] + rest && ([e] + rest)[1..] == rest;
      NoteKind(e.0, e.1, seen);
      WalkKinds(buf, pos + 4 + len, extEnd, Note(e.0, e.1, seen).value);
    } else {
      assert seen.extensions + [] == seen.extensions;
    }
  }

  /** The types of the extensions of a block of which at least the header lies within the record. */
  function Listed(buf: bytes, block: nat, end: nat): seq<nat>
    requires end <= |buf|
  {
    if block + 2 > end then [] else Kinds(Extensions(buf, block + 2, Min(end, block + 2 + U16At(buf, block))))
  }

  lemma BlockKinds(buf: bytes, block: nat, end: nat)
    requires end <= |buf|
    ensures var seen := WalkBlock(buf, block, end); seen.Some? ==> seen.value.extensions == Listed(buf, block, end)
  {
    hide Walk, Extensions, Kinds, U16At;
    if block + 2 <= end && WalkBlock(buf, block, end).Some? {
      WalkKinds(buf, block + 2, Min(end, block + 2 + U16At(buf, block)), NOTHING);
    }
  }

  lemma CiphersFields(buf: bytes, c: nat, end: nat, version: nat)
    requires end <= |buf| && ParseCiphers(buf, c, end, version).Parsed?
    ensures var len := U16At(buf, c);
      && c + 2 + len < end
      && var j := ParseCiphers(buf, c, end, version).ja3;
      && j.version == version && j.ciphers == StripGrease(U16s(buf, c + 2, len / 2))
      && j.extensions == StripGrease(Listed(buf, c + 3 + len + buf[c + 2 + len], end))
  {
    hide StripGrease, U16s, U16At, WalkBlock, Listed;
    BlockKinds(buf, c + 3 + U16At(buf, c) + U8At(buf, c + 2 + U16At(buf, c)), end);
  }

  /** What the fingerprint of a record tells: its version, its suites, and the type of every extension whose
      header lies within it; `comp` is where the compression methods start. */
  predicate Tells(j: Ja3, buf: bytes, suites: bytes, comp: nat, end: nat) {
    && comp < end <= |buf| && 11 <= |buf| && |suites| % 2 == 0
    && j.version == U16At(buf, 9) && j.ciphers == StripGrease(U16s(suites, 0, |suites| / 2))
    && j.extensions == StripGrease(Listed(buf, comp + 1 + buf[comp], end))
  }

  /** A record that is read tells this, well-formed to its end or not. */
  lemma ParsedFields(buf: bytes, sid: bytes, suites: bytes)
    requires |buf| >= 5 && Carries(Within(buf), sid, suites) && Parse(buf).Parsed?
    ensures Tells(Parse(buf).ja3, buf, suites, 46 + |sid| + |suites|, |Within(buf)|)
  {
    hide Carries, Within, Parse, ParseCiphers, U16At, Tells;
    CarriedAt(buf, sid, suites);
    Accepts(buf, sid, suites);
    FieldsAt(buf, 44 + |sid|, |Within(buf)|, suites);
    assert 44 + |sid| + 2 + |suites| == 46 + |sid| + |suites|;
  }

  lemma FieldsAt(buf: bytes, c: nat, end: nat, suites: bytes)
    requires c >= 44 && c + 2 + |suites| < end <= |buf| && |suites| % 2 == 0
    requires U16At(buf, c) == |suites| && buf[c + 2..c + 2 + |suites|] == suites
    requires Parse(buf) == ParseCiphers(buf, c, end, U16At(buf, 9)) && Parse(buf).Parsed?
    ensures Tells(Parse(buf).ja3, buf, suites, c + 2 + |suites|, end)
  {
    hide Parse, ParseCiphers, StripGrease, U16s, U16At, Listed;
    CiphersFields(buf, c, end, U16At(buf, 9));
    SameU16s(buf, c + 2, suites, |suites| / 2);
  }

  lemma {:induction false} SameU16s(buf: bytes, from: nat, list: bytes, n: nat)
    requires 2 * n <= |list| && from + |list| <= |buf| && buf[from..from + |list|] == list
    ensures U16s(buf, from, n) == U16s(list, 0, n)
  {
    if n > 0 {
      assert forall k :: 0 <= k < |list| ==> list[k] == buf[from + k];
      SameU16s(buf, from, list, n - 1);
    }
  }
}

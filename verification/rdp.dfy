/** The X.224 connection-request parser (services/rdp/pdu.py) and the PDU that the attack runner
    prints (cli/attack/runners.py); RFC 1006 section 6 and MS-RDPBCGR section 2.2.1.1. */
module Rdp {
  import opened Bytes

  const TPKT_VERSION: byte := 3
  const COOKIE_START := 11
  const NEG_REQ: byte := 1
  const EQUALS: byte := 61

  // "Cookie: " and "mstshash="
  const COOKIE: bytes := [67, 111, 111, 107, 105, 101, 58, 32]
  const MSTSHASH: bytes := [109, 115, 116, 115, 104, 97, 115, 104, 61]

  datatype Request = Request(cookie: Option<bytes>, mstshash: Option<bytes>, protocols: nat, rawLength: nat)

  // ---- specification -------------------------------------------------------

  // str.strip() on text decoded as ASCII.
  function StripLeft(b: bytes): bytes {
    if b != [] && IsBlank(b[0]) then StripLeft(b[1..]) else b
  }

  function StripRight(b: bytes): bytes {
    if b != [] && IsBlank(b[|b| - 1]) then StripRight(b[..|b| - 1]) else b
  }

  function Strip(b: bytes): bytes {
    StripRight(StripLeft(b))
  }

  predicate WordAt(b: bytes, i: nat, word: bytes) {
    i + |word| <= |b| && b[i..i + |word|] == word
  }

  /** `word in b` */
  predicate Contains(b: bytes, word: bytes) {
    exists i: nat :: i <= |b| && WordAt(b, i, word)
  }

  /** `b.split("=", 1)[1]`, empty when there is no "=". */
  function AfterEquals(b: bytes): bytes {
    if b == [] then [] else if b[0] == EQUALS then b[1..] else AfterEquals(b[1..])
  }

  /** Little-endian 32 bits. */
  function U32At(b: bytes, i: nat): nat
    requires i + 4 <= |b|
  {
    U8At(b, i) + 0x100 * U8At(b, i + 1) + 0x1_0000 * U8At(b, i + 2) + 0x100_0000 * U8At(b, i + 3)
  }

  /** The first CRLF of `buf[..limit]` at or after `k`, or a position too late for one. */
  function CookieEnd(buf: bytes, k: nat, limit: nat): (e: nat)
    requires limit <= |buf|
    ensures e >= k
    ensures e + 1 < limit ==> CrlfAt(buf, e)
    decreases limit - k
  {
    if k + 1 >= limit || CrlfAt(buf, k) then k else CookieEnd(buf, k + 1, limit)
  }

  /** The `mstshash=` value of a stripped cookie line. */
  function Hash(cookie: bytes): Option<bytes> {
    if cookie != [] && Contains(Lower(cookie), MSTSHASH) then Some(Strip(AfterEquals(cookie))) else None
  }

  function Protocols(buf: bytes, start: nat, limit: nat): nat
    requires limit <= |buf|
  {
    if start + 8 <= limit && buf[start] == NEG_REQ then U32At(buf, start + 4) else 0
  }

  /** None stands for every structural problem, the index errors of a short buffer included. */
  function Parse(buf: bytes): Option<Request> {
    if |buf| < 6 || buf[0] != TPKT_VERSION || U8At(buf, 5) / 16 != 0xE then None
    else
      var announced := U16At(buf, 2);
      var limit := if announced < 7 || announced > |buf| then |buf| else announced;
      var end := CookieEnd(buf, COOKIE_START, limit);
      if end > COOKIE_START && end + 1 < limit then
        var cookie := Strip(buf[COOKIE_START..end]);
        Some(Request(Some(cookie), Hash(cookie), Protocols(buf, end + 2, limit), limit))
      else Some(Request(None, None, Protocols(buf, COOKIE_START, limit), limit))
  }

  // ---- the parser as written ------------------------------------------------

  method ParseConnectionRequest(buf: bytes) returns (r: Option<Request>)
    ensures r == Parse(buf)
  {
    hide Hash, Strip;
    if |buf| < 4 { return None; }
    if buf[0] != TPKT_VERSION { return None; }
    var tpktLen := U16At(buf, 2);
    if tpktLen < 7 || tpktLen > |buf| { tpktLen := |buf|; }
    if |buf| < 6 { return None; }               // buf[4], buf[5]: IndexError
    var typeByte := U8At(buf, 5);
    if typeByte / 16 != 0xE { return None; }
    var cookieEnd := COOKIE_START;
    while cookieEnd + 1 < tpktLen
      invariant CookieEnd(buf, cookieEnd, tpktLen) == CookieEnd(buf, COOKIE_START, tpktLen)
      invariant cookieEnd >= COOKIE_START
    {
      if buf[cookieEnd] == CR && buf[cookieEnd + 1] == LF { break; }
      cookieEnd := cookieEnd + 1;
    }
    var cookie, mstshash := None, None;
    var negStart := COOKIE_START;
    if cookieEnd > COOKIE_START && cookieEnd + 1 < tpktLen {
      var line := Strip(buf[COOKIE_START..cookieEnd]);
      cookie, mstshash := Some(line), Hash(line);
      negStart := cookieEnd + 2;
    }
    var protocols := 0;
    if negStart + 8 <= tpktLen && buf[negStart] == NEG_REQ { protocols := U32At(buf, negStart + 4); }
    return Some(Request(cookie, mstshash, protocols, tpktLen));
  }

  // ---- the printer --------------------------------------------------------------

  function BE16(n: nat): bytes
    requires n < 0x1_0000
  {
    [n / 0x100, n % 0x100]
  }

  function LE32(n: nat): bytes
    requires n < 0x1_0000_0000
  {
    [n % 0x100, n / 0x100 % 0x100, n / 0x1_0000 % 0x100, n / 0x100_0000]
  }

  /** A negotiation request for the protocols of a mask. */
  function Negotiation(protocols: nat): (r: bytes)
    requires protocols < 0x1_0000_0000
    ensures |r| == 8
  {
    [1, 0, 8, 0] + LE32(protocols)
  }

  /** A connection request with these user data; its length indicator is a byte. */
  function Wrap(data: bytes): bytes
    requires 6 + |data| < 256
  {
    [3, 0] + BE16(4 + 7 + |data|) + [6 + |data|, 0xE0, 0, 0, 0, 0, 0] + data
  }

  /** A line, which may be a cookie or a routing token, and the negotiation request. */
  function Data(line: bytes, protocols: nat): bytes
    requires protocols < 0x1_0000_0000
  {
    line + [13, 10] + Negotiation(protocols)
  }

  /** The bytes that `rdp_scan` sends for `cookie == "mstshash=" + user`. */
  function Pdu(user: bytes, protocols: nat): bytes
    requires protocols < 0x1_0000_0000 && 6 + |Data(COOKIE + MSTSHASH + user, protocols)| < 256
  {
    Wrap(Data(COOKIE + MSTSHASH + user, protocols))
  }

  lemma CookieText()
    ensures |COOKIE| == 8 && forall i :: 0 <= i < 8 ==> COOKIE[i] == "Cookie: "[i] as int
    ensures |MSTSHASH| == 9 && forall i :: 0 <= i < 9 ==> MSTSHASH[i] == "mstshash="[i] as int
  {
  }

  // ---- round trip ------------------------------------------------------------------

  predicate NoCrlf(b: bytes) {
    forall k :: 0 <= k < |b| ==> !CrlfAt(b, k)
  }

  lemma {:induction false} CookieEndAt(buf: bytes, k: nat, limit: nat, e: nat)
    requires k <= e && e + 1 < limit <= |buf| && CrlfAt(buf, e)
    requires forall j :: k <= j < e ==> !CrlfAt(buf, j)
    ensures CookieEnd(buf, k, limit) == e
    decreases e - k
  {
    if k < e {
      CookieEndAt(buf, k + 1, limit, e);
    }
  }

  lemma {:induction false} StripRightPrefix(head: bytes, tail: bytes)
    requires head != [] && !IsBlank(head[|head| - 1])
    ensures StripRight(head + tail) == head + StripRight(tail)
    decreases |tail|
  {
    if tail == [] {
      assert head + tail == head;
    } else if IsBlank(tail[|tail| - 1]) {
      assert (head + tail)[..|head + tail| - 1] == head + tail[..|tail| - 1];
      StripRightPrefix(head, tail[..|tail| - 1]);
    }
  }

  lemma {:induction false} StripRightTwice(b: bytes)
    ensures StripRight(StripRight(b)) == StripRight(b)
  {
    if b != [] && IsBlank(b[|b| - 1]) {
      StripRightTwice(b[..|b| - 1]);
    }
  }

  /** Stripping the right end first changes nothing. */
  lemma {:induction false} StripOfStripRight(b: bytes)
    ensures Strip(StripRight(b)) == Strip(b)
    decreases |b|
  {
    if b == [] {
    } else if IsBlank(b[0]) {
      if b[1..] != [] && IsBlank(b[|b| - 1]) {
        assert b[..|b| - 1][1..] == b[1..][..|b[1..]| - 1];
      }
      StripLeftBlank(b);
      StripOfStripRight(b[1..]);
    } else {
      assert b == [b[0]] + b[1..];
      StripRightPrefix([b[0]], b[1..]);
      StripRightTwice(b);
    }
  }

  lemma {:induction false} StripLeftBlank(b: bytes)
    requires b != [] && IsBlank(b[0])
    ensures Strip(StripRight(b)) == Strip(StripRight(b[1..]))
    decreases |b|
  {
    if IsBlank(b[|b| - 1]) {
      if |b| > 1 {
        assert b[..|b| - 1][1..] == b[1..][..|b[1..]| - 1];
        StripLeftBlank(b[..|b| - 1]);
      }
    } else {
      assert StripRight(b) == b && StripRight(b[1..]) == b[1..];
    }
  }

  lemma {:induction false} EqualsAfter(head: bytes, value: bytes)
    requires EQUALS !in head
    ensures AfterEquals(head + [EQUALS] + value) == value
  {
    var all := head + [EQUALS] + value;
    if head == [] {
      assert all[1..] == value;
    } else {
      assert head[0] in head;
      assert all[1..] == head[1..] + [EQUALS] + value;
      EqualsAfter(head[1..], value);
    }
  }

  lemma LowerLine(rest: bytes)
    ensures Contains(Lower(COOKIE + MSTSHASH + rest), MSTSHASH)
  {
    var line := COOKIE + MSTSHASH + rest;
    forall i | 0 <= i < 9 ensures Lower(line)[8..17][i] == MSTSHASH[i] {
      assert line[8 + i] == MSTSHASH[i];
    }
    assert WordAt(Lower(line), 8, MSTSHASH);
  }

  lemma StripLine(user: bytes)
    ensures Strip(COOKIE + MSTSHASH + user) == COOKIE + MSTSHASH + StripRight(user)
  {
    var head := COOKIE + MSTSHASH;
    assert head[|head| - 1] == EQUALS && (head + user)[0] == 67;
    StripRightPrefix(head, user);
  }

  lemma AfterEqualsOfLine(rest: bytes)
    ensures AfterEquals(COOKIE + MSTSHASH + rest) == rest
  {
    var head := COOKIE + MSTSHASH[..8];
    assert COOKIE + MSTSHASH + rest == head + [EQUALS] + rest;
    EqualsAfter(head, rest);
  }

  /** What the parser makes of the cookie line. */
  lemma HashOfLine(user: bytes)
    ensures var cookie := Strip(COOKIE + MSTSHASH + user);
      cookie == COOKIE + MSTSHASH + StripRight(user) && Hash(cookie) == Some(Strip(user))
  {
    hide Strip, StripRight, Contains, AfterEquals, Lower;
    StripLine(user);
    LowerLine(StripRight(user));
    AfterEqualsOfLine(StripRight(user));
    StripOfStripRight(user);
  }

  lemma LE32RoundTrip(n: nat)
    requires n < 0x1_0000_0000
    ensures U32At(LE32(n), 0) == n
  {
    var q1, q2, q3 := n / 0x100, n / 0x1_0000, n / 0x100_0000;
    assert q2 == q1 / 0x100 && q3 == q2 / 0x100;
    assert n == n % 0x100 + 0x100 * q1 && q1 == q1 % 0x100 + 0x100 * q2 && q2 == q2 % 0x100 + 0x100 * q3;
  }

  /** Where the parts of a connection request stand. */
  lemma WrapLayout(data: bytes)
    requires 6 + |data| < 256
    ensures var pdu := Wrap(data);
      && |pdu| == COOKIE_START + |data| && pdu[0] == TPKT_VERSION && pdu[5] == 0xE0 && U16At(pdu, 2) == |pdu|
      && pdu[COOKIE_START..] == data
  {
  }

  lemma LineLayout(line: bytes, protocols: nat)
    requires protocols < 0x1_0000_0000 && 6 + |Data(line, protocols)| < 256
    ensures var (pdu, end) := (Wrap(Data(line, protocols)), COOKIE_START + |line|);
      && |pdu| == end + 10 && pdu[0] == TPKT_VERSION && pdu[5] == 0xE0 && U16At(pdu, 2) == |pdu|
      && pdu[COOKIE_START..end] == line && pdu[end] == CR && pdu[end + 1] == LF
      && pdu[end + 2] == NEG_REQ && pdu[end + 6..] == LE32(protocols)
  {
    var (data, n) := (Data(line, protocols), |line|);
    WrapLayout(data);
    var pdu := Wrap(data);
    hide Wrap;
    assert data[..n] == line && data[n..] == [13, 10] + Negotiation(protocols);
    assert pdu[COOKIE_START..][..n] == pdu[COOKIE_START..COOKIE_START + n];
    assert pdu[COOKIE_START..][n..] == pdu[COOKIE_START + n..];
  }

  lemma ProtocolsAt(pdu: bytes, start: nat, limit: nat, protocols: nat)
    requires protocols < 0x1_0000_0000 && start + 8 == limit <= |pdu| && pdu[start] == NEG_REQ
    requires pdu[start + 4..limit] == LE32(protocols)
    ensures Protocols(pdu, start, limit) == protocols
  {
    hide LE32;
    LE32RoundTrip(protocols);
    var tail := pdu[start + 4..limit];
    assert tail[0] == pdu[start + 4] && tail[1] == pdu[start + 5] && tail[2] == pdu[start + 6] && tail[3] == pdu[start + 7];
  }

  lemma NoCrlfInside(buf: bytes, lo: nat, hi: nat)
    requires lo < hi && hi + 1 < |buf| && NoCrlf(buf[lo..hi]) && buf[hi] == CR
    ensures forall j :: lo <= j < hi ==> !CrlfAt(buf, j)
  {
    forall j | lo <= j < hi ensures !CrlfAt(buf, j) {
      assert CrlfAt(buf[lo..hi], j - lo) == (j + 1 < hi && CrlfAt(buf, j));
    }
  }

  lemma NoCrlfLine(user: bytes)
    requires NoCrlf(user)
    ensures NoCrlf(COOKIE + MSTSHASH + user)
  {
    var line := COOKIE + MSTSHASH + user;
    forall k | 0 <= k < |line| ensures !CrlfAt(line, k) {
      if k >= 17 {
        assert !CrlfAt(user, k - 17);
      } else {
        assert line[k] == (COOKIE + MSTSHASH)[k];
      }
    }
  }

  /** How many bytes count as the request: as many as announced, unless that is too few or too many. */
  predicate Announces(buf: bytes, limit: nat) {
    && 4 <= |buf| && 7 <= limit <= |buf|
    && (U16At(buf, 2) == limit || (limit == |buf| && (U16At(buf, 2) < 7 || U16At(buf, 2) > |buf|)))
  }

  /** Whatever length is announced and whatever follows, a request with a nonempty line that holds no CRLF, as
      far as it counts, yields the line without surrounding blanks, the mask and its length. */
  lemma LineParsed(pdu: bytes, buf: bytes, line: bytes, protocols: nat)
    requires protocols < 0x1_0000_0000 && 6 + |Data(line, protocols)| < 256 && line != [] && NoCrlf(line)
    requires pdu == Wrap(Data(line, protocols)) && Announces(buf, |pdu|)
    requires buf[..2] == pdu[..2] && buf[4..|pdu|] == pdu[4..]
    ensures Parse(buf) == Some(Request(Some(Strip(line)), Hash(Strip(line)), protocols, |pdu|))
  {
    hide Wrap, Data, LE32, Hash, Strip, Protocols, CookieEnd, NoCrlf;
    var n, end := |pdu|, COOKIE_START + |line|;
    LineLayout(line, protocols);
    SameBytes(pdu, buf);
    assert buf[COOKIE_START..end] == line;
    NoCrlfInside(buf, COOKIE_START, end);
    CookieEndAt(buf, COOKIE_START, n, end);
    assert buf[end + 6..n] == LE32(protocols);
    ProtocolsAt(buf, end + 2, n, protocols);
  }

  lemma SameBytes(pdu: bytes, buf: bytes)
    requires 4 <= |pdu| <= |buf| && buf[..2] == pdu[..2] && buf[4..|pdu|] == pdu[4..]
    ensures forall i :: 0 <= i < |pdu| && (i < 2 || i >= 4) ==> buf[i] == pdu[i]
  {
    forall i | 0 <= i < |pdu| && (i < 2 || i >= 4) ensures buf[i] == pdu[i] {
      if i < 2 {
        assert buf[..2][i] == pdu[..2][i];
      } else {
        assert buf[4..|pdu|][i - 4] == pdu[4..][i - 4];
      }
    }
  }

  /** For every nonempty line without a CRLF that fits the length indicator, and every 32-bit protocol
      mask, the parser finds the line without surrounding blanks, the mask and the full length, and
      ignores what follows the request. */
  lemma LineRoundTrip(line: bytes, protocols: nat, more: bytes)
    requires protocols < 0x1_0000_0000 && 6 + |Data(line, protocols)| < 256 && line != [] && NoCrlf(line)
    ensures var pdu := Wrap(Data(line, protocols));
      Parse(pdu + more) == Some(Request(Some(Strip(line)), Hash(Strip(line)), protocols, |pdu|))
  {
    hide Wrap, Data, Hash, Strip, Parse, NoCrlf;
    LineLayout(line, protocols);
    var pdu := Wrap(Data(line, protocols));
    assert (pdu + more)[..2] == pdu[..2] && (pdu + more)[4..|pdu|] == pdu[4..];
    LineParsed(pdu, pdu + more, line, protocols);
  }

  /** A length below 7 or beyond the bytes at hand does not matter: what is there is parsed. */
  lemma BogusLength(line: bytes, protocols: nat, announced: nat)
    requires protocols < 0x1_0000_0000 && 6 + |Data(line, protocols)| < 256 && line != [] && NoCrlf(line)
    requires announced < 7 || |Wrap(Data(line, protocols))| < announced < 0x1_0000
    ensures var pdu := Wrap(Data(line, protocols));
      Parse(pdu[..2] + BE16(announced) + pdu[4..])
        == Some(Request(Some(Strip(line)), Hash(Strip(line)), protocols, |pdu|))
  {
    hide Wrap, Data, Hash, Strip, Parse, NoCrlf;
    LineLayout(line, protocols);
    var pdu := Wrap(Data(line, protocols));
    var buf := pdu[..2] + BE16(announced) + pdu[4..];
    assert buf[..2] == pdu[..2] && buf[4..|pdu|] == pdu[4..] && buf[2] == announced / 0x100 && buf[3] == announced % 0x100;
    LineParsed(pdu, buf, line, protocols);
  }

  /** What is no connection request is rejected: fewer than six bytes, another version, another code. */
  lemma RejectedIff(buf: bytes)
    ensures Parse(buf) == None <==> |buf| < 6 || buf[0] != 3 || !(0xE0 <= buf[5] < 0xF0)
  {
    hide Hash, Strip, CookieEnd, Protocols;
  }

  /** For every user name the parser finds the cookie line, the name without surrounding blanks, the mask
      and the full length. */
  lemma RoundTrip(user: bytes, protocols: nat)
    requires protocols < 0x1_0000_0000 && 6 + |Data(COOKIE + MSTSHASH + user, protocols)| < 256 && NoCrlf(user)
    ensures var pdu := Pdu(user, protocols);
      Parse(pdu) == Some(Request(Some(COOKIE + MSTSHASH + StripRight(user)), Some(Strip(user)), protocols, |pdu|))
  {
    hide Wrap, Data, Hash, Strip, Parse, NoCrlf;
    NoCrlfLine(user);
    LineRoundTrip(COOKIE + MSTSHASH + user, protocols, []);
    assert Pdu(user, protocols) + [] == Pdu(user, protocols);
    HashOfLine(user);
  }

  lemma {:induction false} StripRightLength(b: bytes)
    ensures |StripRight(b)| <= |b| && (StripRight(b) == b <==> b == [] || !IsBlank(b[|b| - 1]))
  {
    if b != [] && IsBlank(b[|b| - 1]) {
      StripRightLength(b[..|b| - 1]);
    }
  }

  lemma {:induction false} StripLeftLength(b: bytes)
    ensures |StripLeft(b)| <= |b| && (|StripLeft(b)| == |b| <==> b == [] || !IsBlank(b[0]))
  {
    if b != [] && IsBlank(b[0]) {
      StripLeftLength(b[1..]);
    }
  }

  /** Stripping removes blanks at both ends, and all of them. */
  lemma {:induction false} StripSplits(b: bytes) returns (pre: bytes, post: bytes)
    ensures b == pre + Strip(b) + post && forall c :: c in pre + post ==> IsBlank(c)
    ensures Strip(b) != [] ==> !IsBlank(Strip(b)[0]) && !IsBlank(Strip(b)[|Strip(b)| - 1])
    decreases |b|
  {
    if b == [] {
      pre, post := [], [];
    } else if IsBlank(b[0]) {
      pre, post := StripSplits(b[1..]);
      assert [b[0]] + b[1..] == b && ([b[0]] + pre) + Strip(b) + post == [b[0]] + (pre + Strip(b) + post);
      pre := [b[0]] + pre;
    } else if IsBlank(b[|b| - 1]) {
      var init := b[..|b| - 1];
      pre, post := StripSplits(init);
      assert init + [b[|b| - 1]] == b && pre + Strip(b) + (post + [b[|b| - 1]]) == (pre + Strip(b) + post) + [b[|b| - 1]];
      post := post + [b[|b| - 1]];
    } else {
      StripFixes(b);
      assert [] + b + [] == b;
      pre, post := [], [];
    }
  }

  lemma StripFixes(b: bytes)
    ensures Strip(b) == b <==> b == [] || (!IsBlank(b[0]) && !IsBlank(b[|b| - 1]))
  {
    hide IsBlank, StripRight;
    StripLeftLength(b);
    StripRightLength(StripLeft(b));
    StripRightLength(b);
  }

  /** The name comes back unchanged exactly when it neither starts nor ends with a blank. */
  lemma UserReturnedIff(user: bytes, protocols: nat)
    requires protocols < 0x1_0000_0000 && 6 + |Data(COOKIE + MSTSHASH + user, protocols)| < 256 && NoCrlf(user)
    ensures Parse(Pdu(user, protocols)).value.mstshash == Some(user)
      <==> user == [] || (!IsBlank(user[0]) && !IsBlank(user[|user| - 1]))
  {
    hide Pdu, Data, Parse, Strip;
    RoundTrip(user, protocols);
    StripFixes(user);
  }

  // ---- routing tokens and requests without a line -------------------------------------------

  /** "mstshash=" stands in `b` at `i`, letters in either case. */
  predicate NamesUser(b: bytes, i: nat) {
    && i + 9 <= |b| && b[i + 8] == 61
    && forall k :: 0 <= k < 8 ==> "mstshash"[k] as int - b[i + k] in {0, 32}
  }

  lemma NamesUserIff(b: bytes, i: nat)
    ensures WordAt(Lower(b), i, MSTSHASH) <==> NamesUser(b, i)
  {
    if i + 9 <= |b| {
      var word := Lower(b)[i..i + 9];
      CookieText();
      assert word == MSTSHASH <==> forall k :: 0 <= k < 9 ==> word[k] == MSTSHASH[k];
      forall k | 0 <= k < 8 ensures word[k] == MSTSHASH[k] <==> "mstshash"[k] as int - b[i + k] in {0, 32} {
        assert word[k] == Lower(b)[i + k] && MSTSHASH[k] == "mstshash"[k] as int;
      }
      assert word[8] == Lower(b)[i + 8];
    }
  }

  /** A line without a user name, such as a routing token, yields none. */
  lemma HashIff(line: bytes)
    ensures Hash(line) == None <==> forall i: nat :: !NamesUser(line, i)
  {
    forall i: nat ensures WordAt(Lower(line), i, MSTSHASH) <==> NamesUser(line, i) {
      NamesUserIff(line, i);
    }
    hide Lower, NamesUser, Strip, AfterEquals;
    if i: nat :| WordAt(Lower(line), i, MSTSHASH) {
      assert i <= |Lower(line)| && line != [];
    }
  }

  /** Any other yields what follows its first "=", stripped. */
  lemma HashValue(head: bytes, value: bytes)
    requires 61 !in head && Hash(head + [61] + value).Some?
    ensures Hash(head + [61] + value) == Some(Strip(value))
  {
    hide Strip, Contains, Lower;
    EqualsAfter(head, value);
  }

  /** A request without a line is read as such exactly when its mask holds no CRLF, which would be taken for
      the end of a line. */
  lemma NoLineIff(protocols: nat)
    requires protocols < 0x1_0000_0000
    ensures var pdu := Wrap(Negotiation(protocols));
      Parse(pdu) == Some(Request(None, None, protocols, 19)) <==> NoCrlf(LE32(protocols))
  {
    var (pdu, mask) := (Wrap(Negotiation(protocols)), LE32(protocols));
    WrapLayout(Negotiation(protocols));
    assert pdu[COOKIE_START..][4..] == mask == pdu[15..];
    hide Wrap, LE32, Hash, Strip, Protocols, CookieEnd;
    if NoCrlf(mask) {
      NoLine(pdu, mask);
      ProtocolsAt(pdu, COOKIE_START, 19, protocols);
    } else {
      SomeLine(pdu, mask);
    }
  }

  lemma {:induction false} NoneFound(buf: bytes, k: nat, limit: nat)
    requires limit <= |buf| && forall j :: k <= j && j + 1 < limit ==> !CrlfAt(buf, j)
    ensures CookieEnd(buf, k, limit) + 1 >= limit
    decreases limit - k
  {
    if k + 1 < limit {
      NoneFound(buf, k + 1, limit);
    }
  }

  lemma NoLine(pdu: bytes, mask: bytes)
    requires |pdu| == 19 && pdu[11..15] == [1, 0, 8, 0] && pdu[15..] == mask && NoCrlf(mask)
    ensures CookieEnd(pdu, COOKIE_START, 19) >= 18
  {
    assert pdu[11..15][0] == pdu[11] && pdu[11..15][1] == pdu[12] && pdu[11..15][2] == pdu[13] && pdu[11..15][3] == pdu[14];
    forall j | 15 <= j < 18 ensures !CrlfAt(pdu, j) {
      assert CrlfAt(mask, j - 15) == CrlfAt(pdu, j);
    }
    NoneFound(pdu, COOKIE_START, 19);
  }

  lemma {:induction false} OneFound(buf: bytes, k: nat, limit: nat, e: nat)
    requires k <= e && e + 1 < limit <= |buf| && CrlfAt(buf, e)
    ensures CookieEnd(buf, k, limit) <= e
    decreases e - k
  {
    if k < e {
      OneFound(buf, k + 1, limit, e);
    }
  }

  lemma SomeLine(pdu: bytes, mask: bytes)
    requires |pdu| == 19 && pdu[11] == 1 && pdu[15..] == mask && !NoCrlf(mask)
    ensures COOKIE_START < CookieEnd(pdu, COOKIE_START, 19) < 18
  {
    var k :| 0 <= k < |mask| && CrlfAt(mask, k);
    assert CrlfAt(pdu, 15 + k) by { assert mask[k] == pdu[15 + k] && mask[k + 1] == pdu[16 + k]; }
    OneFound(pdu, COOKIE_START, 19, 15 + k);
  }
}

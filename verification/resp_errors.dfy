/** What the RESP parser makes of malformed arrays. */
module RespErrors {
  import opened Bytes
  import opened RespProtocol
  import Decimal

  predicate NoCrlf(b: bytes) {
    forall k :: 0 <= k < |b| ==> !CrlfAt(b, k)
  }

  /** A line that starts with a marker ends at the first CRLF behind it. */
  lemma LineEnd(pre: bytes, mark: byte, text: bytes, rest: bytes)
    requires mark != CR && NoCrlf(text)
    ensures var (buf, nl) := (pre + [mark] + text + CRLF + rest, |pre| + 1 + |text|);
      && FindCrlf(buf, |pre|) == nl && Slice(buf, |pre|, |pre| + 1) == [mark] && Slice(buf, |pre| + 1, nl) == text
      && nl + 2 <= |buf| && buf[nl + 2..] == rest
  {
    var (buf, nl) := (pre + [mark] + text + CRLF + rest, |pre| + 1 + |text|);
    assert buf[nl] == CR && buf[nl + 1] == LF;
    forall k | |pre| <= k < nl ensures !CrlfAt(buf, k) {
      if k > |pre| {
        assert buf[k] == text[k - |pre| - 1];
        assert !CrlfAt(text, k - |pre| - 1);
      }
    }
    FindCrlfUnique(buf, |pre|, nl);
    SliceInside(buf, |pre|, |pre| + 1);
    SliceInside(buf, |pre| + 1, nl);
  }

  /** An array header that is no number is consumed as one empty argument. */
  lemma BadCount(text: bytes, rest: bytes)
    requires NoCrlf(text) && Decimal.ParseInt(text) == None
    ensures Parse([42] + text + [13, 10] + rest) == Command([[]], rest)
  {
    hide Decimal.ParseInt, FindCrlf, Slice;
    LineEnd([], 42, text, rest);
    assert [] + [42] + text + CRLF + rest == [42] + text + [13, 10] + rest;
  }

  /** One that announces nothing, or less than nothing, is a command without arguments. */
  lemma NoCount(text: bytes, rest: bytes)
    requires NoCrlf(text) && Decimal.ParseInt(text).Some? && Decimal.ParseInt(text).value <= 0
    ensures Parse([42] + text + [13, 10] + rest) == Command([], rest)
  {
    hide Decimal.ParseInt, FindCrlf, Slice;
    LineEnd([], 42, text, rest);
    assert [] + [42] + text + CRLF + rest == [42] + text + [13, 10] + rest;
  }

  predicate Countable(args: Args) {
    forall a :: a in args ==> |Decimal.Print(|a|)| <= 4300
  }

  /** The parser gets past complete arguments. */
  lemma {:induction false} PastBulks(pre: bytes, args: Args, rest: bytes, count: int, done: Args)
    requires Countable(args) && count >= |args|
    ensures var buf := pre + EncodeBulks(args) + rest;
      ParseBulks(buf, |pre|, count, done) == ParseBulks(buf, |pre| + |EncodeBulks(args)|, count - |args|, done + args)
    decreases |args|
  {
    hide ReadBulk, EncodeBulk;
    var buf := pre + EncodeBulks(args) + rest;
    if args == [] {
      assert done + args == done;
    } else {
      var head, tail := EncodeBulk(args[0]), EncodeBulks(args[1..]);
      assert buf == pre + head + (tail + rest);
      assert buf == (pre + head) + tail + rest;
      ReadEncodedBulk(pre, args[0], tail + rest);
      PastBulks(pre + head, args[1..], rest, count - 1, done + [args[0]]);
      assert done + [args[0]] + args[1..] == done + args;
    }
  }

  /** Behind some complete arguments of an announced array. */
  lemma Reach(args: Args, count: nat, rest: bytes)
    requires Countable(args) && count >= |args| && |Decimal.Print(count)| <= 4300
    ensures var pre := [42] + Decimal.Print(count) + [13, 10] + EncodeBulks(args);
      Parse(pre + rest) == ParseBulks(pre + rest, |pre|, count - |args|, args)
  {
    hide EncodeBulks, Decimal.Print, Decimal.ParseInt, FindCrlf, ReadBulk, ParseBulks;
    var digits := Decimal.Print(count);
    var header := [42] + digits + [13, 10];
    var buf := header + EncodeBulks(args) + rest;
    assert buf == [] + [STAR] + digits + CRLF + (EncodeBulks(args) + rest);
    HeaderEnd([], STAR, count, EncodeBulks(args) + rest);
    Decimal.ParseIntOfPrint(count);
    PastBulks(header, args, rest, count, []);
    assert [] + args == args;
  }

  /** A bulk length that is no number drops the arguments before it: the command is one empty argument, and
      the rest starts behind that line. */
  lemma BadLength(args: Args, count: nat, text: bytes, rest: bytes)
    requires Countable(args) && count > |args| && |Decimal.Print(count)| <= 4300
    requires NoCrlf(text) && Decimal.ParseInt(text) == None
    ensures Parse([42] + Decimal.Print(count) + [13, 10] + EncodeBulks(args) + [36] + text + [13, 10] + rest)
         == Command([[]], rest)
  {
    hide EncodeBulks, Decimal.Print, Decimal.ParseInt, Parse, ReadBulk;
    var pre := [42] + Decimal.Print(count) + [13, 10] + EncodeBulks(args);
    var line := [36] + text + [13, 10] + rest;
    assert pre + line == pre + [36] + text + [13, 10] + rest;
    Reach(args, count, line);
    ReadBadLength(pre, text, rest);
  }

  lemma ReadBadLength(pre: bytes, text: bytes, rest: bytes)
    requires NoCrlf(text) && Decimal.ParseInt(text) == None
    ensures ReadBulk(pre + ([36] + text + [13, 10] + rest), |pre|) == RespProtocol.BadLength(rest)
  {
    hide Decimal.ParseInt, FindCrlf, Slice, NoCrlf;
    var buf := pre + ([36] + text + [13, 10] + rest);
    assert buf == pre + [36] + text + CRLF + rest;
    LineEnd(pre, 36, text, rest);
    assert From(buf, |pre| + 3 + |text|) == rest;
  }

  /** Where a bulk string should start, any byte but a dollar sign stops the parser for good. */
  lemma NoDollarBlocks(args: Args, count: nat, rest: bytes)
    requires Countable(args) && count > |args| && |Decimal.Print(count)| <= 4300
    requires rest != [] && rest[0] != 36
    ensures Parse([42] + Decimal.Print(count) + [13, 10] + EncodeBulks(args) + rest) == Incomplete
  {
    hide EncodeBulks, Decimal.Print, FindCrlf, Parse, Slice;
    var pre := [42] + Decimal.Print(count) + [13, 10] + EncodeBulks(args);
    Reach(args, count, rest);
    SliceInside(pre + rest, |pre|, |pre| + 1);
    assert (pre + rest)[|pre|..|pre| + 1] == [rest[0]];
  }
}

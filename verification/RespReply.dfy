/** RESP replies: what the encoders write, and that a reader gets back what was meant. */
module RespReply {
  import opened Common
  import opened Decimal
  import opened RespRequest

  const SIMPLE_PREFIX := '+'
  const ERROR_PREFIX := '-'
  const INTEGER_PREFIX := ':'
  const NULL_BULK := "$-1\r\n"

  datatype Reply =
    | Simple(text: string)
    | Failed(text: string)
    | Integer(n: int)
    | BulkString(value: string)
    | Null
    | Array(elements: seq<Reply>)

  const INT64_MIN: int := -0x8000_0000_0000_0000
  const INT64_MAX: int := 0x7FFF_FFFF_FFFF_FFFF

  /** Replies the encoders are given: one-line texts, 64-bit integers, lengths that fit a `size_t`. */
  ghost predicate Encodable(r: Reply) {
    match r
    case Simple(text) => CR !in text
    case Failed(text) => CR !in text
    case Integer(n) => INT64_MIN <= n <= INT64_MAX
    case BulkString(value) => |value| < TWO_TO_THE_64
    case Null => true
    case Array(elements) => |elements| < TWO_TO_THE_64 && forall e :: e in elements ==> Encodable(e)
  }

  function Line(prefix: char, text: string): string {
    [prefix] + (text + CRLF)
  }

  /** The magnitude, computed so that the least 64-bit integer does not overflow. */
  function Magnitude(n: int): (m: nat)
    ensures m == if n < 0 then -n else n
  {
    if n < 0 then -(n + 1) + 1 else n
  }

  function IntegerText(n: int): string {
    (if n < 0 then "-" else "") + Digits(Magnitude(n))
  }

  function Encode(r: Reply): string
    decreases r, 0
  {
    match r
    case Simple(text) => Line(SIMPLE_PREFIX, text)
    case Failed(text) => Line(ERROR_PREFIX, text)
    case Integer(n) => Line(INTEGER_PREFIX, IntegerText(n))
    case BulkString(value) => Bulk(value)
    case Null => NULL_BULK
    case Array(elements) => Headed(ARRAY_PREFIX, |elements|, EncodeAll(elements))
  }

  function EncodeAll(rs: seq<Reply>): string
    decreases rs, 0
  {
    if rs == [] then [] else Encode(rs[0]) + EncodeAll(rs[1..])
  }

  // ---------- A reference reader ----------

  datatype Decoded = Got(reply: Reply, rest: string) | Malformed
  datatype DecodedMany = GotAll(replies: seq<Reply>, rest: string) | Garbled

  /** The text up to the first CR, which must be followed by LF. */
  function ReadLine(s: string): (r: Option<(string, string)>)
    ensures r.Some? ==> |r.value.1| < |s|
  {
    if |s| < 2 then None
    else if s[0] == CR then if s[1] == LF then Some(([], s[2..])) else None
    else
      var r := ReadLine(s[1..]);
      if r.None? then None else Some(([s[0]] + r.value.0, r.value.1))
  }

  function ReadInteger(s: string): Decoded {
    if s != [] && s[0] == '-' then
      match ReadHeader(s[1..], 0, false)
      case Value(m, rest) => Got(Integer(0 - m), rest)
      case _ => Malformed
    else
      match ReadHeader(s, 0, false)
      case Value(m, rest) => Got(Integer(m), rest)
      case _ => Malformed
  }

  function ReadBulk(s: string): (d: Decoded)
    ensures d.Got? ==> |d.rest| <= |s|
  {
    match ReadHeader(s, 0, false)
    case Value(len, rest) =>
      if len + 2 <= |rest| && rest[len] == CR && rest[len + 1] == LF then Got(BulkString(rest[..len]), rest[len + 2..])
      else Malformed
    case _ => Malformed
  }

  /** One reply at the front of `s`, read as the Redis serialization protocol prescribes. */
  function Decode(s: string): (d: Decoded)
    ensures d.Got? ==> |d.rest| < |s|
    decreases |s|, 0
  {
    if s == [] then Malformed
    else if s[0] == SIMPLE_PREFIX then
      var r := ReadLine(s[1..]);
      if r.Some? then Got(Simple(r.value.0), r.value.1) else Malformed
    else if s[0] == ERROR_PREFIX then
      var r := ReadLine(s[1..]);
      if r.Some? then Got(Failed(r.value.0), r.value.1) else Malformed
    else if s[0] == INTEGER_PREFIX then
      ReadInteger(s[1..])
    else if NULL_BULK <= s then
      Got(Null, s[|NULL_BULK|..])
    else if s[0] == BULK_PREFIX then
      ReadBulk(s[1..])
    else if s[0] == ARRAY_PREFIX then
      match ReadHeader(s[1..], 0, false)
      case Value(n, rest) =>
        var all := DecodeMany(rest, n);
        if all.GotAll? then Got(Array(all.replies), all.rest) else Malformed
      case _ => Malformed
    else
      Malformed
  }

  function DecodeMany(s: string, n: nat): (d: DecodedMany)
    ensures d.GotAll? ==> |d.rest| <= |s|
    decreases |s|, n + 1
  {
    if n == 0 then GotAll([], s)
    else
      match Decode(s)
      case Malformed => Garbled
      case Got(r, rest) =>
        var all := DecodeMany(rest, n - 1);
        if all.GotAll? then GotAll([r] + all.replies, all.rest) else Garbled
  }

  // ---------- Every reply reads back ----------

  lemma {:induction false} LineReads(text: string, rest: string)
    requires CR !in text
    ensures ReadLine(text + CRLF + rest) == Some((text, rest))
  {
    var s := text + CRLF + rest;
    if text == [] {
      assert s[2..] == rest;
    } else {
      assert s[1..] == text[1..] + CRLF + rest;
      assert text[0] in text;
      LineReads(text[1..], rest);
      assert [text[0]] + text[1..] == text;
    }
  }

  lemma LineAfterPrefix(prefix: char, text: string, rest: string)
    ensures (Line(prefix, text) + rest)[0] == prefix && (Line(prefix, text) + rest)[1..] == text + CRLF + rest
  {
  }

  lemma IntegerReads(n: int, rest: string)
    requires INT64_MIN <= n <= INT64_MAX
    ensures ReadInteger(IntegerText(n) + CRLF + rest) == Got(Integer(n), rest)
  {
    var s := IntegerText(n) + CRLF + rest;
    ReadInvertsWrite(Magnitude(n), rest);
    if n < 0 {
      assert s[1..] == Digits(Magnitude(n)) + CRLF + rest;
    } else {
      assert s == Digits(Magnitude(n)) + CRLF + rest;
      assert s[0] == Digits(Magnitude(n))[0];
    }
  }

  lemma BulkReads(value: string, rest: string)
    requires |value| < TWO_TO_THE_64
    ensures var s := Bulk(value) + rest;
      s[0] == BULK_PREFIX && ReadBulk(s[1..]) == Got(BulkString(value), rest) && !(NULL_BULK <= s)
  {
    var s, tail := Bulk(value) + rest, value + CRLF + rest;
    HeadedRead(BULK_PREFIX, |value|, value + CRLF, rest);
    assert tail[..|value|] == value && tail[|value|] == CR && tail[|value| + 1] == LF && tail[|value| + 2..] == rest;
    assert s[1] == Digits(|value|)[0];
  }

  lemma LineDecodes(prefix: char, text: string, rest: string)
    requires CR !in text && (prefix == SIMPLE_PREFIX || prefix == ERROR_PREFIX)
    ensures Decode(Line(prefix, text) + rest)
      == Got(if prefix == SIMPLE_PREFIX then Simple(text) else Failed(text), rest)
  {
    LineAfterPrefix(prefix, text, rest);
    LineReads(text, rest);
  }

  lemma IntegerDecodes(n: int, rest: string)
    requires INT64_MIN <= n <= INT64_MAX
    ensures Decode(Encode(Integer(n)) + rest) == Got(Integer(n), rest)
  {
    LineAfterPrefix(INTEGER_PREFIX, IntegerText(n), rest);
    IntegerReads(n, rest);
  }

  lemma BulkDecodes(value: string, rest: string)
    requires |value| < TWO_TO_THE_64
    ensures Decode(Encode(BulkString(value)) + rest) == Got(BulkString(value), rest)
  {
    BulkReads(value, rest);
  }

  lemma NullDecodes(rest: string)
    ensures Decode(NULL_BULK + rest) == Got(Null, rest)
  {
    assert (NULL_BULK + rest)[|NULL_BULK|..] == rest;
  }

  lemma ArrayDecodes(elements: seq<Reply>, body: string, rest: string)
    requires |elements| < TWO_TO_THE_64 && DecodeMany(body + rest, |elements|) == GotAll(elements, rest)
    ensures Decode(Headed(ARRAY_PREFIX, |elements|, body) + rest) == Got(Array(elements), rest)
  {
    HeadedRead(ARRAY_PREFIX, |elements|, body, rest);
  }

  /** Every reply reads back as what was encoded, whatever follows it on the wire. */
  lemma {:induction false} DecodeInvertsEncode(r: Reply, rest: string)
    requires Encodable(r)
    ensures Decode(Encode(r) + rest) == Got(r, rest)
    decreases r, 0
  {
    match r
    case Simple(text) => LineDecodes(SIMPLE_PREFIX, text, rest);
    case Failed(text) => LineDecodes(ERROR_PREFIX, text, rest);
    case Integer(n) => IntegerDecodes(n, rest);
    case BulkString(value) => BulkDecodes(value, rest);
    case Null => NullDecodes(rest);
    case Array(elements) =>
      DecodeInvertsEncodeAll(elements, rest);
      ArrayDecodes(elements, EncodeAll(elements), rest);
  }

  lemma {:induction false} DecodeInvertsEncodeAll(rs: seq<Reply>, rest: string)
    requires forall e :: e in rs ==> Encodable(e)
    ensures DecodeMany(EncodeAll(rs) + rest, |rs|) == GotAll(rs, rest)
    decreases rs, 0
  {
    if rs == [] {
      assert EncodeAll(rs) + rest == rest;
    } else {
      assert rs[0] in rs;
      DecodeInvertsEncode(rs[0], EncodeAll(rs[1..]) + rest);
      Associates(Encode(rs[0]), EncodeAll(rs[1..]), rest);
      DecodeInvertsEncodeAll(rs[1..], rest);
      assert [rs[0]] + rs[1..] == rs;
    }
  }
}

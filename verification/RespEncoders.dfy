/** The encoders as the server runs them: each fills exactly the bytes it computed, in a buffer it was given. */
module RespEncoders {
  import opened Common
  import opened Decimal
  import opened RespRequest
  import opened RespReply
  import opened Cuts

  // ---------- Writing into a buffer ----------

  /** The buffer with `s` written over it from `at` on. */
  function Splice(buf: string, at: nat, s: string): (r: string)
    requires at + |s| <= |buf|
    ensures |r| == |buf|
  {
    buf[..at] + s + buf[at + |s|..]
  }

  lemma SpliceTwice(buf: string, at: nat, s: string, t: string)
    requires at + |s| + |t| <= |buf|
    ensures Splice(Splice(buf, at, s), at + |s|, t) == Splice(buf, at, s + t)
  {
  }

  /** `memcpy` of `s` to `out + at`. */
  method Copy(out: array<char>, at: nat, s: seq<char>)
    requires at + |s| <= out.Length
    modifies out
    ensures out[..] == Splice(old(out[..]), at, s)
  {
    forall i | 0 <= i < |s| {
      out[at + i] := s[i];
    }
  }

  /** Writes `t` directly behind `done`, which was written at `at`. */
  method Append(out: array<char>, at: nat, ghost before: string, ghost done: string, offset: nat, t: seq<char>)
    returns (next: nat)
    requires |before| == out.Length && at + |done| + |t| <= out.Length && offset == at + |done|
    requires out[..] == Splice(before, at, done)
    modifies out
    ensures out[..] == Splice(before, at, done + t) && next == offset + |t|
  {
    Copy(out, offset, t);
    SpliceTwice(before, at, done, t);
    next := offset + |t|;
  }

  method DigitsOf(n: u64) returns (digits: seq<char>)
    ensures digits == Digits(n) && |digits| <= 20
  {
    var buf := new char[20](_ => '0');
    var k := WriteDigits(n, buf);
    digits := buf[..k];
  }

  lemma SpliceNothing(buf: string, at: nat)
    requires at <= |buf|
    ensures Splice(buf, at, []) == buf
  {
  }

  // ---------- The encoders ----------

  /** `makeRespSimpleString` beyond its prebuilt replies. */
  method FillSimple(out: array<char>, at: nat, message: seq<char>) returns (total: nat)
    requires at + |message| + 3 <= out.Length
    modifies out
    ensures total == |Encode(Simple(message))| && at + total <= out.Length
    ensures out[..] == Splice(old(out[..]), at, Encode(Simple(message)))
  {
    ghost var before := out[..];
    total := |message| + 3;
    SpliceNothing(before, at);
    var offset := Append(out, at, before, [], at, [SIMPLE_PREFIX]);
    offset := Append(out, at, before, [] + [SIMPLE_PREFIX], offset, message);
    offset := Append(out, at, before, [] + [SIMPLE_PREFIX] + message, offset, [CR, LF]);
    assert [] + [SIMPLE_PREFIX] + message + [CR, LF] == Encode(Simple(message));
  }

  /** `makeRespError` beyond its prebuilt replies. */
  method FillError(out: array<char>, at: nat, message: seq<char>) returns (total: nat)
    requires at + |message| + 7 <= out.Length
    modifies out
    ensures total == |Encode(Failed("ERR " + message))| && at + total <= out.Length
    ensures out[..] == Splice(old(out[..]), at, Encode(Failed("ERR " + message)))
  {
    ghost var before := out[..];
    total := |"-ERR "| + |message| + 2;
    SpliceNothing(before, at);
    var offset := Append(out, at, before, [], at, "-ERR ");
    offset := Append(out, at, before, [] + "-ERR ", offset, message);
    offset := Append(out, at, before, [] + "-ERR " + message, offset, [CR, LF]);
    assert [] + "-ERR " + message + [CR, LF] == Encode(Failed("ERR " + message));
  }

  lemma IntegerBytes(n: int)
    ensures Encode(Integer(n)) == [INTEGER_PREFIX] + (if n < 0 then "-" else "") + Digits(Magnitude(n)) + [CR, LF]
  {
  }

  method FillInteger(out: array<char>, at: nat, value: int) returns (total: nat)
    requires INT64_MIN <= value <= INT64_MAX && at + |Encode(Integer(value))| <= out.Length
    modifies out
    ensures total == |Encode(Integer(value))| && total <= 24
    ensures out[..] == Splice(old(out[..]), at, Encode(Integer(value)))
  {
    ghost var before := out[..];
    IntegerBytes(value);
    var magnitude: nat := if value < 0 then -(value + 1) + 1 else value;
    var digits := DigitsOf(magnitude);
    var sign := if value < 0 then "-" else "";
    total := 1 + |sign| + |digits| + 2;
    SpliceNothing(before, at);
    var offset := Append(out, at, before, [], at, [INTEGER_PREFIX]);
    offset := Append(out, at, before, [] + [INTEGER_PREFIX], offset, sign);
    offset := Append(out, at, before, [] + [INTEGER_PREFIX] + sign, offset, digits);
    offset := Append(out, at, before, [] + [INTEGER_PREFIX] + sign + digits, offset, [CR, LF]);
    assert [] + [INTEGER_PREFIX] + sign + digits + [CR, LF] == Encode(Integer(value));
  }

  lemma BulkBytes(value: string)
    ensures Bulk(value) == [BULK_PREFIX] + Digits(|value|) + [CR, LF] + value + [CR, LF]
  {
    RegroupBulk([BULK_PREFIX], Digits(|value|), value);
  }

  lemma RegroupBulk(a: string, b: string, c: string)
    ensures a + (b + CRLF + (c + CRLF)) == a + b + [CR, LF] + c + [CR, LF]
  {
  }

  method FillBulk(out: array<char>, at: nat, value: seq<char>) returns (total: nat)
    requires |value| < TWO_TO_THE_64 && at + |Bulk(value)| <= out.Length
    modifies out
    ensures total == |Encode(BulkString(value))|
    ensures out[..] == Splice(old(out[..]), at, Encode(BulkString(value)))
  {
    ghost var before := out[..];
    BulkBytes(value);
    var digits := DigitsOf(|value|);
    total := 1 + |digits| + 2 + |value| + 2;
    SpliceNothing(before, at);
    var offset := Append(out, at, before, [], at, [BULK_PREFIX]);
    offset := Append(out, at, before, [] + [BULK_PREFIX], offset, digits);
    offset := Append(out, at, before, [] + [BULK_PREFIX] + digits, offset, [CR, LF]);
    offset := Append(out, at, before, [] + [BULK_PREFIX] + digits + [CR, LF], offset, value);
    offset := Append(out, at, before, [] + [BULK_PREFIX] + digits + [CR, LF] + value, offset, [CR, LF]);
    assert [] + [BULK_PREFIX] + digits + [CR, LF] + value + [CR, LF] == Bulk(value);
  }

  lemma {:induction false} FlatOneMore(ws: seq<string>, w: string)
    ensures Flat(ws + [w]) == Flat(ws) + w
  {
    if ws == [] {
      assert Flat([w]) == w + Flat([]);
    } else {
      assert (ws + [w])[1..] == ws[1..] + [w];
      FlatOneMore(ws[1..], w);
    }
  }

  lemma {:induction false} FlatOfEncoded(rs: seq<Reply>, ws: seq<string>)
    requires |ws| == |rs| && forall i :: 0 <= i < |rs| ==> ws[i] == Encode(rs[i])
    ensures Flat(ws) == EncodeAll(rs)
  {
    if rs != [] {
      FlatOfEncoded(rs[1..], ws[1..]);
    }
  }

  lemma ArrayBytes(n: nat, body: string)
    ensures Headed(ARRAY_PREFIX, n, body) == [ARRAY_PREFIX] + Digits(n) + [CR, LF] + body
  {
    RegroupArray([ARRAY_PREFIX], Digits(n), body);
  }

  lemma RegroupArray(a: string, b: string, c: string)
    ensures a + (b + CRLF + c) == a + b + [CR, LF] + c
  {
  }

  method SumOfSizes(elements: seq<seq<char>>) returns (total: nat)
    ensures total == |Flat(elements)|
  {
    total := 0;
    for i := 0 to |elements|
      invariant total == |Flat(elements[..i])|
    {
      FlatOneMore(elements[..i], elements[i]);
      assert elements[..i] + [elements[i]] == elements[..i + 1];
      total := total + |elements[i]|;
    }
    assert elements[..|elements|] == elements;
  }

  /** Copies the elements one behind the other. */
  method FillAll(out: array<char>, at: nat, elements: seq<seq<char>>)
    requires at + |Flat(elements)| <= out.Length
    modifies out
    ensures out[..] == Splice(old(out[..]), at, Flat(elements))
  {
    ghost var before := out[..];
    SpliceNothing(before, at);
    var offset := at;
    for i := 0 to |elements|
      invariant |Flat(elements[..i])| <= |Flat(elements)| && offset == at + |Flat(elements[..i])|
      invariant out[..] == Splice(before, at, Flat(elements[..i]))
    {
      FlatOneMore(elements[..i], elements[i]);
      assert elements[..i] + [elements[i]] == elements[..i + 1];
      FlatPrefix(elements, i + 1);
      offset := Append(out, at, before, Flat(elements[..i]), offset, elements[i]);
    }
    assert elements[..|elements|] == elements;
  }

  lemma {:induction false} FlatPrefix(ws: seq<string>, i: nat)
    requires i <= |ws|
    ensures |Flat(ws[..i])| <= |Flat(ws)|
  {
    if i > 0 {
      FlatPrefix(ws[1..], i - 1);
      assert ws[..i][1..] == ws[1..][..i - 1];
    }
  }

  method FillHeader(out: array<char>, at: nat, digits: seq<char>) returns (offset: nat)
    requires at + |digits| + 3 <= out.Length
    modifies out
    ensures offset == at + |digits| + 3
    ensures out[..] == Splice(old(out[..]), at, [ARRAY_PREFIX] + digits + [CR, LF])
  {
    ghost var before := out[..];
    SpliceNothing(before, at);
    offset := Append(out, at, before, [], at, [ARRAY_PREFIX]);
    assert [] + [ARRAY_PREFIX] == [ARRAY_PREFIX];
    offset := Append(out, at, before, [ARRAY_PREFIX], offset, digits);
    offset := Append(out, at, before, [ARRAY_PREFIX] + digits, offset, [CR, LF]);
  }

  /** `makeRespArray`: the element packets' bytes behind an array header. */
  method FillArray(out: array<char>, at: nat, elements: seq<seq<char>>) returns (total: nat)
    requires |elements| < TWO_TO_THE_64
    requires at + |Headed(ARRAY_PREFIX, |elements|, Flat(elements))| <= out.Length
    modifies out
    ensures total == |Headed(ARRAY_PREFIX, |elements|, Flat(elements))|
    ensures out[..] == Splice(old(out[..]), at, Headed(ARRAY_PREFIX, |elements|, Flat(elements)))
  {
    ghost var before := out[..];
    ArrayBytes(|elements|, Flat(elements));
    var digits := DigitsOf(|elements|);
    var body := SumOfSizes(elements);
    total := 1 + |digits| + 2 + body;
    var offset := FillHeader(out, at, digits);
    FillAll(out, offset, elements);
    ghost var header := [ARRAY_PREFIX] + digits + [CR, LF];
    SpliceTwice(before, at, header, Flat(elements));
  }

  /** An array of encoded replies is the encoding of the array of those replies. */
  lemma ArrayOfReplies(rs: seq<Reply>, ws: seq<string>)
    requires |ws| == |rs| && forall i :: 0 <= i < |rs| ==> ws[i] == Encode(rs[i])
    ensures Headed(ARRAY_PREFIX, |ws|, Flat(ws)) == Encode(Array(rs))
  {
    FlatOfEncoded(rs, ws);
  }
}

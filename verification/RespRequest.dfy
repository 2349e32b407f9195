/** RESP requests: where a pending array ends, and where it cannot yet be told. */
module RespRequest {
  import opened Common
  import opened Decimal

  const ARRAY_PREFIX := '*'
  const BULK_PREFIX := '$'

  // ---------- Canonical requests ----------

  /** A bulk string as the Redis serialization protocol writes it. */
  function Bulk(a: string): string {
    Headed(BULK_PREFIX, |a|, a + CRLF)
  }

  /** A type prefix and a decimal header line, then `body`. */
  function Headed(prefix: char, n: nat, body: string): string {
    [prefix] + (Digits(n) + CRLF + body)
  }

  function Bulks(args: seq<string>): string {
    if args == [] then [] else Bulk(args[0]) + Bulks(args[1..])
  }

  function Request(args: seq<string>): string {
    Headed(ARRAY_PREFIX, |args|, Bulks(args))
  }

  /** Lengths a `size_t` can hold. */
  ghost predicate Sized(args: seq<string>) {
    |args| < TWO_TO_THE_64 && forall i :: 0 <= i < |args| ==> |args[i]| < TWO_TO_THE_64
  }

  // ---------- Framing ----------

  /** `payloads` are the elements of the array; `rest` is what follows it. */
  datatype Framed = Complete(payloads: seq<string>, rest: string) | Incomplete | Error

  function Prepend(a: string, f: Framed): Framed {
    if f.Complete? then f.(payloads := [a] + f.payloads) else f
  }

  /** The `count` elements at the front of `s`. */
  function Elements(s: string, count: nat): (f: Framed)
    ensures f.Complete? ==> |f.payloads| == count && |f.rest| <= |s|
    decreases count
  {
    if count == 0 then Complete([], s)
    else if s == [] then Incomplete
    else if s[0] != BULK_PREFIX then Error
    else
      match ReadHeader(s[1..], 0, false)
      case Bad => Error
      case RanOut(_) => Incomplete
      case Value(len, rest) =>
        if |rest| < len + 2 then Incomplete
        else if rest[len] != CR || rest[len + 1] != LF then Error
        else Prepend(rest[..len], Elements(rest[len + 2..], count - 1))
  }

  /** The array at the front of `s`. A header cut short after its digits counts as read: `*0` is complete. */
  function Frame(s: string): (f: Framed)
    ensures f.Complete? ==> |f.rest| < |s|
  {
    if s == [] || s[0] != ARRAY_PREFIX then Error
    else
      match ReadHeader(s[1..], 0, false)
      case Bad => Error
      case RanOut(count) => if count == 0 then Complete([], []) else Incomplete
      case Value(count, rest) => Elements(rest, count)
  }

  // ---------- Headers ----------

  lemma HeadedRead(prefix: char, n: u64, body: string, rest: string)
    ensures var s := Headed(prefix, n, body) + rest;
      s[0] == prefix && ReadHeader(s[1..], 0, false) == Value(n, body + rest)
  {
    var s := Headed(prefix, n, body) + rest;
    assert s[1..] == Digits(n) + CRLF + (body + rest);
    ReadInvertsWrite(n, body + rest);
  }

  /** A header line cut short is refused just after the prefix and just after CR, and runs out otherwise. */
  lemma HeadedCut(prefix: char, n: u64, body: string, c: nat)
    requires 0 < c <= |Headed(prefix, n, body)|
    ensures var p, header := Headed(prefix, n, body)[..c], 3 + |Digits(n)|;
      && p[0] == prefix
      && (c == 1 || c == header - 1 ==> ReadHeader(p[1..], 0, false) == Bad)
      && (1 < c < header - 1 ==> ReadHeader(p[1..], 0, false).RanOut? && (n > 0 ==> ReadHeader(p[1..], 0, false).n > 0))
      && (header <= c ==> ReadHeader(p[1..], 0, false) == Value(n, body[..c - header]))
  {
    var d := Digits(n);
    var p := Headed(prefix, n, body)[..c];
    assert p[1..] == (d + CRLF + body)[..c - 1];
    if c <= 1 + |d| {
      assert (d + CRLF + body)[..c - 1] == d[..c - 1];
      ReadCutHeader(n, c - 1);
    } else if c == 2 + |d| {
      assert (d + CRLF + body)[..c - 1] == d + [CR];
      ReadCutHeader(n, |d|);
    } else {
      assert (d + CRLF + body)[..c - 1] == d + CRLF + body[..c - 3 - |d|];
      ReadInvertsWrite(n, body[..c - 3 - |d|]);
    }
  }

  // ---------- A whole request is framed, whatever follows ----------

  lemma ElementAtFront(a: string, more: string, count: nat)
    requires |a| < TWO_TO_THE_64 && 0 < count
    ensures Elements(Bulk(a) + more, count) == Prepend(a, Elements(more, count - 1))
  {
    HeadedRead(BULK_PREFIX, |a|, a + CRLF, more);
    var rest := a + CRLF + more;
    assert rest[..|a|] == a && rest[|a|] == CR && rest[|a| + 1] == LF && rest[|a| + 2..] == more;
  }

  lemma {:induction false} ElementsOfBulks(args: seq<string>, rest: string)
    requires Sized(args)
    ensures Elements(Bulks(args) + rest, |args|) == Complete(args, rest)
  {
    if args == [] {
      assert Bulks(args) + rest == rest;
    } else {
      ElementsOfBulks(args[1..], rest);
      ElementAtFront(args[0], Bulks(args[1..]) + rest, |args|);
      Associates(Bulk(args[0]), Bulks(args[1..]), rest);
      assert [args[0]] + args[1..] == args;
    }
  }

  /** The framer finds exactly the request, and nothing that follows it matters. */
  lemma FrameOfRequest(args: seq<string>, rest: string)
    requires Sized(args)
    ensures Frame(Request(args) + rest) == Complete(args, rest)
  {
    HeadedRead(ARRAY_PREFIX, |args|, Bulks(args), rest);
    ElementsOfBulks(args, rest);
  }

  // ---------- A request cut short ----------

  /** The cut falls just after a bulk's `$` or just after the CR of its header. */
  ghost predicate BadBulkCut(args: seq<string>, c: nat)
    requires c < |Bulks(args)|
  {
    if args == [] then false
    else if c < |Bulk(args[0])| then c == 1 || c == 2 + |Digits(|args[0]|)|
    else BadBulkCut(args[1..], c - |Bulk(args[0])|)
  }

  /** The cut falls just after `*`, just after a `$`, or just after a header's CR. */
  ghost predicate BadCut(args: seq<string>, c: nat)
    requires c < |Request(args)|
  {
    var header := 3 + |Digits(|args|)|;
    c == 1 || c == header - 1 || (c >= header && BadBulkCut(args, c - header))
  }

  lemma CutInBulk(a: string, c: nat, count: nat)
    requires |a| < TWO_TO_THE_64 && 0 < c < |Bulk(a)| && 0 < count
    ensures Elements(Bulk(a)[..c], count) == if c == 1 || c == 2 + |Digits(|a|)| then Error else Incomplete
  {
    HeadedCut(BULK_PREFIX, |a|, a + CRLF, c);
  }

  lemma {:induction false} CutInBulks(args: seq<string>, c: nat)
    requires Sized(args) && c < |Bulks(args)|
    ensures Elements(Bulks(args)[..c], |args|) == if BadBulkCut(args, c) then Error else Incomplete
  {
    var p, b := Bulks(args)[..c], Bulk(args[0]);
    if c == 0 {
    } else if c < |b| {
      assert p == b[..c];
      CutInBulk(args[0], c, |args|);
    } else {
      var more := Bulks(args[1..])[..c - |b|];
      assert p == b + more;
      ElementAtFront(args[0], more, |args|);
      CutInBulks(args[1..], c - |b|);
    }
  }

  /**
    A strict prefix of a request is never taken for a whole one. It is refused exactly when it ends
    just after `*`, `$` or a header's CR, and is otherwise waited on.
   */
  lemma FrameOfCutRequest(args: seq<string>, c: nat)
    requires Sized(args) && args != [] && 0 < c < |Request(args)|
    ensures Frame(Request(args)[..c]) == if BadCut(args, c) then Error else Incomplete
  {
    HeadedCut(ARRAY_PREFIX, |args|, Bulks(args), c);
    var header := 3 + |Digits(|args|)|;
    if header <= c {
      CutInBulks(args, c - header);
    }
  }

  // ---------- The framer as the program runs it ----------

  datatype Status = Done | More | Invalid

  /** The digit loop of every header parser; `ended` tells a header closed by CRLF from one that ran out. */
  method ReadNumber(buffer: seq<char>, start: nat) returns (ok: bool, ended: bool, val: nat, idx: nat)
    requires start <= |buffer|
    ensures start <= idx <= |buffer|
    ensures match ReadHeader(buffer[start..], 0, false)
      case Bad => !ok
      case RanOut(n) => ok && !ended && val == n && idx == |buffer|
      case Value(n, rest) => ok && ended && val == n && rest == buffer[idx..]
  {
    idx, val, ended := start, 0, false;
    var any := false;
    while idx < |buffer|
      invariant start <= idx <= |buffer| && !ended
      invariant ReadHeader(buffer[start..], 0, false) == ReadHeader(buffer[idx..], val, any)
    {
      var c := buffer[idx];
      if c == CR {
        if idx + 1 >= |buffer| || buffer[idx + 1] != LF || !any {
          return false, false, val, idx;
        }
        assert buffer[idx..][2..] == buffer[idx + 2..];
        return true, true, val, idx + 2;
      }
      if !IsDigit(c) {
        return false, false, val, idx;
      }
      any := true;
      val := (val * 10 + (c as int - '0' as int)) % TWO_TO_THE_64;
      assert buffer[idx..][1..] == buffer[idx + 1..];
      idx := idx + 1;
    }
    ok := any;
  }

  /** What the element at `idx` is, read from the buffer. */
  lemma ElementAt(buffer: string, idx: nat, count: nat)
    requires idx <= |buffer| && 0 < count
    ensures Elements(buffer[idx..], count) ==
      if idx == |buffer| then Incomplete
      else if buffer[idx] != BULK_PREFIX then Error
      else
        match ReadHeader(buffer[idx + 1..], 0, false)
        case Bad => Error
        case RanOut(_) => Incomplete
        case Value(n, rest) =>
          if |rest| < n + 2 then Incomplete
          else if rest[n] != CR || rest[n + 1] != LF then Error
          else Prepend(rest[..n], Elements(rest[n + 2..], count - 1))
  {
    if idx < |buffer| {
      assert buffer[idx..][1..] == buffer[idx + 1..];
    }
  }

  /** One element of the array: Done when it is complete at `idx`, with its payload in `[at, end)`. */
  method ParseElement(buffer: seq<char>, idx: nat, ghost count: nat) returns (status: Status, at: nat, end: nat)
    requires idx <= |buffer| && 0 < count
    ensures status == Done ==> idx < at <= end && end + 2 <= |buffer| && buffer[end] == CR
    ensures Elements(buffer[idx..], count) ==
      match status
      case Invalid => Error
      case More => Incomplete
      case Done => Prepend(buffer[at..end], Elements(buffer[end + 2..], count - 1))
  {
    hide Elements, ReadHeader, Prepend;
    at, end := 0, 0;
    ElementAt(buffer, idx, count);
    if idx >= |buffer| {
      return More, 0, 0;
    }
    if buffer[idx] != BULK_PREFIX {
      return Invalid, 0, 0;
    }
    var ok, _, bulkLen, after := ReadNumber(buffer, idx + 1);
    if !ok {
      return Invalid, 0, 0;
    }
    if after + bulkLen + 2 > |buffer| {
      return More, 0, 0;
    }
    if buffer[after + bulkLen] != CR || buffer[after + bulkLen + 1] != LF {
      return Invalid, 0, 0;
    }
    SlicesAt(buffer, after, bulkLen);
    return Done, after, after + bulkLen;
  }

  lemma SlicesAt(buffer: string, after: nat, n: nat)
    requires after + n + 2 <= |buffer|
    ensures buffer[after..][..n] == buffer[after..after + n]
    ensures buffer[after..][n + 2..] == buffer[after + n + 2..]
  {
  }

  /** The element loop: Done when all `count` elements are complete, the last one ending at `idx`. */
  method ParseElements(buffer: seq<char>, first: nat, count: nat) returns (status: Status, idx: nat)
    requires first <= |buffer|
    ensures match Elements(buffer[first..], count)
      case Error => status == Invalid
      case Incomplete => status == More
      case Complete(_, rest) => status == Done && first <= idx <= |buffer| && rest == buffer[idx..]
  {
    hide Elements, Prepend;
    idx := first;
    ghost var done: seq<string> := [];
    ghost var all := Elements(buffer[first..], count);
    PrependNone(all);
    for arg := 0 to count
      invariant first <= idx <= |buffer|
      invariant all == PrependAll(done, Elements(buffer[idx..], count - arg))
    {
      var element, at, end := ParseElement(buffer, idx, count - arg);
      if element != Done {
        return element, idx;
      }
      PrependLast(done, buffer[at..end], Elements(buffer[end + 2..], count - arg - 1));
      done := done + [buffer[at..end]];
      idx := end + 2;
    }
    AllTaken(done, buffer[idx..]);
    status := Done;
  }

  /** `parseRespMessageLength`: Done with the array's length exactly when an array is complete at `start`. */
  method ParseRespMessageLength(buffer: seq<char>, start: nat) returns (status: Status, length: nat)
    requires start <= |buffer|
    ensures match Frame(buffer[start..])
      case Error => status == Invalid
      case Incomplete => status == More
      case Complete(_, rest) => status == Done && start + length <= |buffer| && rest == buffer[start + length..]
  {
    if start >= |buffer| || buffer[start] != ARRAY_PREFIX {
      return Invalid, 0;
    }
    assert buffer[start..][1..] == buffer[start + 1..];
    var ok, _, arrayLen, idx := ReadNumber(buffer, start + 1);
    if !ok {
      return Invalid, 0;
    }
    var end;
    status, end := ParseElements(buffer, idx, arrayLen);
    length := if status == Done then end - start else 0;
  }

  lemma PrependNone(f: Framed)
    ensures PrependAll([], f) == f
  {
    if f.Complete? {
      assert [] + f.payloads == f.payloads;
    }
  }

  function PrependAll(done: seq<string>, f: Framed): Framed {
    if f.Complete? then f.(payloads := done + f.payloads) else f
  }

  /** With no element left to read, what has been read is all. */
  lemma AllTaken(done: seq<string>, rest: string)
    ensures PrependAll(done, Elements(rest, 0)) == Complete(done, rest)
  {
    assert done + [] == done;
  }

  lemma PrependLast(done: seq<string>, a: string, f: Framed)
    ensures PrependAll(done, Prepend(a, f)) == PrependAll(done + [a], f)
  {
    if f.Complete? {
      assert done + ([a] + f.payloads) == (done + [a]) + f.payloads;
    }
  }
}

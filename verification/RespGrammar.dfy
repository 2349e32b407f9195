/** Which bytes frame as a RESP array, and which wait for more, said as a grammar over any bytes at all. */
module RespGrammar {
  import opened Common
  import opened Decimal
  import opened RespRequest
  import F = Framing
  import S = Streams

  // ---------- Headers ----------

  /** One digit or more. */
  ghost predicate IsNumber(d: string) {
    d != [] && forall i :: 0 <= i < |d| ==> '0' <= d[i] <= '9'
  }

  /** What the digits come to in 64 bits, leading zeros and overflow included. */
  ghost function Reads(d: string): nat
    requires IsNumber(d)
  {
    Numeral(d) % 0x1_0000_0000_0000_0000
  }

  /** `s` is the digits `d`, a line end and `rest`. */
  ghost predicate Headed(s: string, d: string, rest: string) {
    IsNumber(d) && s == d + "\r\n" + rest
  }

  /** How many digits come first. */
  function Leading(s: string): (k: nat)
    ensures k <= |s| && (forall i :: 0 <= i < k ==> '0' <= s[i] <= '9') && (k < |s| ==> !('0' <= s[k] <= '9'))
  {
    if s != [] && '0' <= s[0] <= '9' then 1 + Leading(s[1..]) else 0
  }

  /** What the header reader says, once the digits `all` have been read and `tail` is left. */
  ghost function HeaderOf(all: string, tail: string): Header
    requires AllDigits(all)
  {
    if tail == [] then (if all == [] then Bad else RanOut(Numeral(all) % TWO_TO_THE_64))
    else if tail[0] == CR && 1 < |tail| && tail[1] == LF && all != [] then
      Value(Numeral(all) % TWO_TO_THE_64, tail[2..])
    else Bad
  }

  lemma NumeralGrows(before: string, c: char)
    requires AllDigits(before) && IsDigit(c)
    ensures AllDigits(before + [c]) && Numeral(before + [c]) == Numeral(before) * 10 + DigitValue(c)
  {
    var more := before + [c];
    assert more[..|more| - 1] == before;
  }

  lemma HeaderStops(before: string, s: string)
    requires AllDigits(before) && Leading(s) == 0
    ensures ReadHeader(s, Numeral(before) % TWO_TO_THE_64, before != []) == HeaderOf(before, s)
  {
  }

  lemma HeaderGoesOn(before: string, s: string)
    requires AllDigits(before) && s != [] && IsDigit(s[0])
    ensures AllDigits(before + [s[0]])
    ensures ReadHeader(s, Numeral(before) % TWO_TO_THE_64, before != [])
         == ReadHeader(s[1..], Numeral(before + [s[0]]) % TWO_TO_THE_64, true)
  {
    NumeralGrows(before, s[0]);
    WrapsAlong(Numeral(before), DigitValue(s[0]));
  }

  /** The reader from any point on: `before` are the digits already read. */
  lemma {:induction false} HeaderFrom(before: string, s: string)
    requires AllDigits(before)
    ensures AllDigits(before + s[..Leading(s)])
    ensures ReadHeader(s, Numeral(before) % TWO_TO_THE_64, before != [])
         == HeaderOf(before + s[..Leading(s)], s[Leading(s)..])
    decreases |s|
  {
    hide ReadHeader, Numeral, HeaderOf;
    var k := Leading(s);
    if k == 0 {
      assert before + s[..k] == before && s[k..] == s;
      HeaderStops(before, s);
    } else {
      HeaderGoesOn(before, s);
      HeaderFrom(before + [s[0]], s[1..]);
      assert Leading(s[1..]) == k - 1;
      assert before + [s[0]] + s[1..][..k - 1] == before + s[..k] && s[1..][k - 1..] == s[k..];
    }
  }

  lemma WrapsAlong(n: nat, d: nat)
    ensures (n % TWO_TO_THE_64 * 10 + d) % TWO_TO_THE_64 == (n * 10 + d) % TWO_TO_THE_64
  {
    var q, r := n / TWO_TO_THE_64, n % TWO_TO_THE_64;
    var t, u := (r * 10 + d) / TWO_TO_THE_64, (r * 10 + d) % TWO_TO_THE_64;
    assert n * 10 + d == TWO_TO_THE_64 * (10 * q + t) + u by {
      assert n == TWO_TO_THE_64 * q + r && r * 10 + d == TWO_TO_THE_64 * t + u;
    }
    RemainderIs(n * 10 + d, 10 * q + t, u);
  }

  lemma RemainderIs(x: nat, q: nat, r: nat)
    requires x == TWO_TO_THE_64 * q + r && r < TWO_TO_THE_64
    ensures x % TWO_TO_THE_64 == r
  {
    var d := x / TWO_TO_THE_64 - q;
    assert TWO_TO_THE_64 * d == r - x % TWO_TO_THE_64;
    assert d == 0;
  }

  lemma HeaderIs(s: string)
    ensures AllDigits(s[..Leading(s)])
    ensures ReadHeader(s, 0, false) == HeaderOf(s[..Leading(s)], s[Leading(s)..])
  {
    hide ReadHeader, HeaderOf, Leading;
    HeaderFrom([], s);
    assert [] + s[..Leading(s)] == s[..Leading(s)];
    assert Numeral([]) % TWO_TO_THE_64 == 0;
  }

  lemma {:induction false} LeadingIs(s: string, k: nat)
    requires k <= |s| && (forall i :: 0 <= i < k ==> '0' <= s[i] <= '9') && (k < |s| ==> !('0' <= s[k] <= '9'))
    ensures Leading(s) == k
  {
  }

  /** Digits and a line end in front are read as what the digits come to in 64 bits. */
  lemma LineIsRead(s: string, d: string, rest: string)
    requires Headed(s, d, rest)
    ensures ReadHeader(s, 0, false) == Value(Reads(d), rest)
  {
    hide ReadHeader, Leading, Numeral;
    LeadingIs(s, |d|);
    HeaderIs(s);
    assert s[..|d|] == d && s[|d|..] == "\r\n" + rest;
    assert ("\r\n" + rest)[2..] == rest;
  }

  /** Digits alone run out. */
  lemma DigitsRunOut(s: string)
    requires IsNumber(s)
    ensures ReadHeader(s, 0, false) == RanOut(Reads(s))
  {
    hide ReadHeader, Leading, Numeral;
    LeadingIs(s, |s|);
    HeaderIs(s);
    assert s[..|s|] == s && s[|s|..] == [];
  }

  /** And nothing else is read, or runs out. */
  lemma ReadIsLine(s: string) returns (d: string, rest: string)
    ensures var h := ReadHeader(s, 0, false);
      && (h.Value? ==> Headed(s, d, rest) && h == Value(Reads(d), rest))
      && (h.RanOut? ==> IsNumber(s) && h == RanOut(Reads(s)))
  {
    hide ReadHeader, Numeral;
    var k := Leading(s);
    hide Leading;
    HeaderIs(s);
    d, rest := s[..k], if k + 2 <= |s| then s[k + 2..] else [];
    if k + 2 <= |s| {
      assert s == s[..k] + [s[k], s[k + 1]] + s[k + 2..];
      assert s[k..][2..] == s[k + 2..];
    } else if k == |s| {
      assert s[..k] == s;
    }
  }

  // ---------- Elements ----------

  /** `s` begins with one whole element, and `rest` is what follows it. */
  ghost predicate Element(s: string, payload: string, rest: string) {
    && s != [] && s[0] == '$'
    && exists d, body :: Headed(s[1..], d, body) && Reads(d) == |payload| && body == payload + "\r\n" + rest
  }

  ghost predicate Elems(s: string, payloads: seq<string>, rest: string)
    decreases |payloads|
  {
    if payloads == [] then s == rest
    else exists more :: Element(s, payloads[0], more) && Elems(more, payloads[1..], rest)
  }

  /** `s` may still become an element: nothing, a header's digits so far, or fewer bytes than it announces. */
  ghost predicate Waits(s: string) {
    s == []
    || (s[0] == '$' && (IsNumber(s[1..]) || exists d, body :: Headed(s[1..], d, body) && |body| < Reads(d) + 2))
  }

  /** Fewer than `n` whole elements, and then one that may still become whole. */
  ghost predicate ElemsWait(s: string, n: nat)
    decreases n
  {
    n > 0 && (Waits(s) || exists payload, more :: Element(s, payload, more) && ElemsWait(more, n - 1))
  }

  lemma ElementIsTaken(s: string, payload: string, rest: string, count: nat)
    requires Element(s, payload, rest) && 0 < count
    ensures Elements(s, count) == Prepend(payload, Elements(rest, count - 1))
  {
    hide ReadHeader, Numeral, Prepend;
    var d, body :| Headed(s[1..], d, body) && Reads(d) == |payload| && body == payload + "\r\n" + rest;
    LineIsRead(s[1..], d, body);
    var n := |payload|;
    assert body[..n] == payload && body[n] == CR && body[n + 1] == LF && body[n + 2..] == rest;
  }

  lemma WaitingIsIncomplete(s: string, count: nat)
    requires Waits(s) && 0 < count
    ensures Elements(s, count) == Incomplete
  {
    hide ReadHeader, Numeral;
    if s != [] {
      if IsNumber(s[1..]) {
        DigitsRunOut(s[1..]);
      } else {
        var d, body :| Headed(s[1..], d, body) && |body| < Reads(d) + 2;
        LineIsRead(s[1..], d, body);
      }
    }
  }

  /** What stands at the front: an element, the beginning of one, or neither. */
  lemma FrontIs(s: string, count: nat) returns (payload: string, rest: string)
    requires 0 < count
    ensures Element(s, payload, rest) || Waits(s) || Elements(s, count) == Error
  {
    hide Numeral, Prepend;
    payload, rest := [], [];
    if s != [] && s[0] == BULK_PREFIX {
      var d, body := ReadIsLine(s[1..]);
      var h := ReadHeader(s[1..], 0, false);
      if h.Value? && h.n + 2 <= |body| && body[h.n] == CR && body[h.n + 1] == LF {
        payload, rest := body[..h.n], body[h.n + 2..];
        assert body == payload + "\r\n" + rest;
      }
    }
  }

  /** Elements are found complete exactly when they are there. */
  lemma {:induction false} ElementsComplete(s: string, payloads: seq<string>, rest: string)
    ensures Elements(s, |payloads|) == Complete(payloads, rest) <==> Elems(s, payloads, rest)
    decreases |payloads|
  {
    hide Elements, Element, Waits;
    if payloads == [] {
      NoElements(s);
    } else {
      var n := |payloads|;
      var p, more := FrontIs(s, n);
      if Element(s, p, more) {
        ElementIsTaken(s, p, more, n);
        ElementsComplete(more, payloads[1..], rest);
        assert payloads == [payloads[0]] + payloads[1..];
        OneElement(s, p, more, payloads[0]);
      } else if Waits(s) {
        WaitingIsIncomplete(s, n);
      }
      forall more' | Element(s, payloads[0], more') && Elems(more', payloads[1..], rest)
        ensures Elements(s, n) == Complete(payloads, rest)
      {
        ElementIsTaken(s, payloads[0], more', n);
        ElementsComplete(more', payloads[1..], rest);
        assert payloads == [payloads[0]] + payloads[1..];
      }
    }
  }

  lemma NoElements(s: string)
    ensures Elements(s, 0) == Complete([], s)
  {
  }

  /** An element can be read in one way only. */
  lemma OneElement(s: string, p: string, more: string, q: string)
    requires Element(s, p, more)
    ensures forall more' :: Element(s, q, more') ==> q == p && more' == more
  {
    forall more' | Element(s, q, more') ensures q == p && more' == more {
      ElementIsTaken(s, p, more, 1);
      ElementIsTaken(s, q, more', 1);
      NoElements(more);
      NoElements(more');
      assert Complete([p] + [], more) == Complete([q] + [], more');
      assert p == ([p] + [])[0] == ([q] + [])[0] == q;
    }
  }

  /** They are waited for exactly when they may still come. */
  lemma {:induction false} ElementsIncomplete(s: string, n: nat)
    ensures Elements(s, n) == Incomplete <==> ElemsWait(s, n)
    decreases n
  {
    hide Elements, Element, Waits;
    if n == 0 {
      NoElements(s);
    } else {
      var p, more := FrontIs(s, n);
      if Waits(s) {
        WaitingIsIncomplete(s, n);
      } else if Element(s, p, more) {
        ElementIsTaken(s, p, more, n);
        ElementsIncomplete(more, n - 1);
      }
      forall p', more' | Element(s, p', more') && ElemsWait(more', n - 1) ensures Elements(s, n) == Incomplete {
        ElementIsTaken(s, p', more', n);
        ElementsIncomplete(more', n - 1);
      }
    }
  }

  // ---------- Arrays ----------

  /** `s` begins with a whole array; digits that announce no element count as one without a line end. */
  ghost predicate IsArray(s: string, payloads: seq<string>, rest: string) {
    && s != [] && s[0] == '*'
    && ((exists d, body :: Headed(s[1..], d, body) && Reads(d) == |payloads| && Elems(body, payloads, rest))
        || (IsNumber(s[1..]) && Reads(s[1..]) == 0 && payloads == [] && rest == []))
  }

  /** `s` may still become one. */
  ghost predicate ArrayWaits(s: string) {
    && s != [] && s[0] == '*'
    && ((IsNumber(s[1..]) && Reads(s[1..]) != 0)
        || exists d, body :: Headed(s[1..], d, body) && ElemsWait(body, Reads(d)))
  }

  /** Any bytes frame as an array exactly when they begin with one, and with exactly its elements. */
  lemma FrameIff(s: string, payloads: seq<string>, rest: string)
    ensures Frame(s) == Complete(payloads, rest) <==> IsArray(s, payloads, rest)
  {
    hide Elements, ReadHeader, Numeral, Elems;
    if s != [] && s[0] == ARRAY_PREFIX {
      var d, body := ReadIsLine(s[1..]);
      ElementsComplete(body, payloads, rest);
      forall d', body' | Headed(s[1..], d', body') ensures ReadHeader(s[1..], 0, false) == Value(Reads(d'), body') {
        LineIsRead(s[1..], d', body');
      }
      if IsNumber(s[1..]) {
        DigitsRunOut(s[1..]);
      }
      CompleteCount(body, payloads, rest);
    }
  }

  lemma CompleteCount(s: string, payloads: seq<string>, rest: string)
    ensures forall n: nat :: Elements(s, n) == Complete(payloads, rest) ==> n == |payloads|
  {
  }

  /** They are waited for exactly when they may still become one; anything else is refused. */
  lemma FrameWaitsIff(s: string)
    ensures Frame(s) == Incomplete <==> ArrayWaits(s)
  {
    hide Elements, ReadHeader, Numeral, ElemsWait;
    if s != [] && s[0] == ARRAY_PREFIX {
      var d, body := ReadIsLine(s[1..]);
      forall d', body' | Headed(s[1..], d', body')
        ensures ReadHeader(s[1..], 0, false) == Value(Reads(d'), body')
        ensures Elements(body', Reads(d')) == Incomplete <==> ElemsWait(body', Reads(d'))
      {
        LineIsRead(s[1..], d', body');
        ElementsIncomplete(body', Reads(d'));
      }
      if IsNumber(s[1..]) {
        DigitsRunOut(s[1..]);
      }
    }
  }

  // ---------- One turn of the framing loop ----------

  /**
    What the framing loop makes of any bytes. A separator is skipped. Bytes that begin with `*` are taken as a
    RESP request when they begin with an array, waited on when they may become one, and refused otherwise.
    Anything else is a custom request up to the first separator, and waited on without one.
   */
  lemma NextOnAnyBytes(s: string)
    requires s != []
    ensures s[0] == 0x1F as char ==> F.Next(s) == S.Skip(1)
    ensures s[0] == '*' ==>
      && (F.Next(s) == S.Stop <==> ArrayWaits(s))
      && (F.Next(s) == S.Fail <==> !ArrayWaits(s) && forall payloads, rest :: !IsArray(s, payloads, rest))
      && (forall payloads, rest :: IsArray(s, payloads, rest) ==>
            |rest| <= |s| && var n := |s| - |rest|; F.Next(s) == S.Take(F.Req(F.Resp, s[..n]), n))
    ensures s[0] != 0x1F as char && s[0] != '*' ==>
      if 0x1F as char !in s then F.Next(s) == S.Stop
      else
        exists n :: 0 < n < |s| && s[n] == 0x1F as char && 0x1F as char !in s[..n]
                    && F.Next(s) == S.Take(F.Req(F.Custom, s[..n]), n + 1)
  {
    hide IsArray, ArrayWaits, Frame;
    if s[0] == '*' {
      FrameWaitsIff(s);
      forall payloads, rest ensures Frame(s) == Complete(payloads, rest) <==> IsArray(s, payloads, rest) {
        FrameIff(s, payloads, rest);
      }
      if Frame(s).Complete? {
        assert IsArray(s, Frame(s).payloads, Frame(s).rest);
      }
    } else if s[0] != 0x1F as char {
      var n := F.FirstSeparator(s);
      assert forall i :: 0 <= i < n ==> s[..n][i] != 0x1F as char;
      if n < |s| {
        assert s[n] in s;
      }
    }
  }
}

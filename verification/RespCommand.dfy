/** Taking a framed request apart in place: payloads are NUL-terminated where they stand. */
module RespCommand {
  import opened Common
  import opened Decimal
  import opened RespRequest

  /** What a C string read stops at. */
  function UpToNul(s: string): (r: CString)
    ensures |r| <= |s| && r == s[..|r|] && (|r| < |s| ==> s[|r|] == '\0')
  {
    if s == [] || s[0] == '\0' then [] else [s[0]] + UpToNul(s[1..])
  }

  /** The elements `parseRespCommand` extracts, or None when it refuses the request. */
  function CommandOf(view: string): (r: Option<seq<string>>)
    ensures r.Some? ==> 1 <= |r.value| <= 3
  {
    if view == [] || view[0] != ARRAY_PREFIX then None
    else
      match ReadHeader(view[1..], 0, false)
      case Bad => None
      case RanOut(_) => None
      case Value(n, rest) =>
        if 1 <= n <= 3 && Elements(rest, n).Complete? then Some(Elements(rest, n).payloads) else None
  }

  // ---------- What was framed is what is parsed ----------

  /** A header is read the same way whatever follows the bytes it used. */
  lemma {:induction false} HeaderIsLocal(s: string, val: nat, any: bool, t: string)
    requires ReadHeader(s, val, any).Value?
    ensures var h := ReadHeader(s, val, any);
      && h.rest == s[|s| - |h.rest|..]
      && ReadHeader(s[..|s| - |h.rest|] + t, val, any) == Value(h.n, t)
    decreases |s|
  {
    var h := ReadHeader(s, val, any);
    var s' := s[..|s| - |h.rest|] + t;
    if s[0] == CR {
      assert s'[2..] == t;
    } else {
      HeaderIsLocal(s[1..], Shifted(val, s[0]), true, t);
      assert s'[1..] == s[1..][..|s[1..]| - |h.rest|] + t;
    }
  }

  lemma HeaderSplit(s: string, t: string) returns (head: string)
    requires ReadHeader(s, 0, false).Value?
    ensures s == head + ReadHeader(s, 0, false).rest
    ensures ReadHeader(head + t, 0, false) == Value(ReadHeader(s, 0, false).n, t)
  {
    HeaderIsLocal(s, 0, false, t);
    head := s[..|s| - |ReadHeader(s, 0, false).rest|];
  }

  /** The first of the elements found complete. */
  lemma FirstElement(s: string, count: nat)
    requires Elements(s, count).Complete? && 0 < count
    ensures s != [] && s[0] == BULK_PREFIX
    ensures var h := ReadHeader(s[1..], 0, false);
      && h.Value? && h.n + 2 <= |h.rest| && h.rest[h.n] == CR && h.rest[h.n + 1] == LF
      && Elements(s, count) == Prepend(h.rest[..h.n], Elements(h.rest[h.n + 2..], count - 1))
  {
  }

  /** Complete elements are found again in front of any other bytes. */
  lemma {:induction false} ElementsAreLocal(s: string, count: nat, t: string) returns (used: string)
    requires Elements(s, count).Complete?
    ensures s == used + Elements(s, count).rest
    ensures Elements(used + t, count) == Complete(Elements(s, count).payloads, t)
    decreases count
  {
    if count == 0 {
      used := [];
      assert [] + t == t;
    } else {
      hide Elements, ReadHeader;
      FirstElement(s, count);
      var h := ReadHeader(s[1..], 0, false);
      var payload, after := h.rest[..h.n], h.rest[h.n + 2..];
      var used' := ElementsAreLocal(after, count - 1, t);
      var head := HeaderSplit(s[1..], payload + CRLF + (used' + t));
      used := [s[0]] + head + payload + CRLF + used';
      Regroup([s[0]], head, payload, used', t);
      ElementsStep(used + t, head, payload, used' + t, count, h.n);
      Assembled(s, head, h.rest, h.n, used', Elements(s, count).rest);
    }
  }

  lemma Assembled(s: string, head: string, behind: string, n: nat, used: string, rest: string)
    requires s != [] && s[1..] == head + behind && n + 2 <= |behind| && behind[n] == CR && behind[n + 1] == LF
    requires behind[n + 2..] == used + rest
    ensures s == [s[0]] + head + behind[..n] + CRLF + used + rest
  {
    SplitPayload(behind, n);
    Regroup([s[0]], head, behind[..n], used, rest);
    assert s == [s[0]] + s[1..];
  }

  lemma SplitPayload(s: string, n: nat)
    requires n + 2 <= |s| && s[n] == CR && s[n + 1] == LF
    ensures s == s[..n] + CRLF + s[n + 2..]
  {
  }

  lemma Regroup(a: string, b: string, c: string, d: string, e: string)
    ensures (a + b + c + CRLF + d) + e == a + (b + (c + CRLF + (d + e)))
  {
  }

  lemma ElementsStep(s: string, head: string, payload: string, more: string, count: nat, n: nat)
    requires 0 < count && n == |payload|
    requires s == [BULK_PREFIX] + (head + (payload + CRLF + more))
    requires ReadHeader(head + (payload + CRLF + more), 0, false) == Value(n, payload + CRLF + more)
    ensures Elements(s, count) == Prepend(payload, Elements(more, count - 1))
  {
    var rest := payload + CRLF + more;
    assert s[1..] == head + rest;
    assert rest[..n] == payload && rest[n] == CR && rest[n + 1] == LF && rest[n + 2..] == more;
  }

  /**
    Whenever the framer reports a complete array, taking it apart succeeds exactly when it has one to
    three elements, and yields the elements that were framed.
   */
  lemma FramedIsParsed(s: string)
    requires Frame(s).Complete?
    ensures var f := Frame(s);
      var view := s[..|s| - |f.rest|];
      && s == view + f.rest
      && Frame(view) == Complete(f.payloads, [])
      && CommandOf(view) == if 1 <= |f.payloads| <= 3 then Some(f.payloads) else None
  {
    hide Elements, ReadHeader;
    var f := Frame(s);
    var h := ReadHeader(s[1..], 0, false);
    if h.RanOut? {
      assert s[..|s|] == s;
    } else {
      var used := ElementsAreLocal(h.rest, h.n, []);
      var head := HeaderSplit(s[1..], used);
      var view := [s[0]] + head + used;
      assert s == view + f.rest;
      assert view == s[..|s| - |f.rest|];
      assert view[1..] == head + used;
      assert used + [] == used;
    }
  }

  // ---------- In place ----------

  /** A payload and the address it stands at. */
  datatype Piece = Piece(at: nat, payload: string) {
    function End(): nat { at + |payload| }
  }

  function Payloads(pieces: seq<Piece>): (r: seq<string>)
    ensures |r| == |pieces| && forall i :: 0 <= i < |r| ==> r[i] == pieces[i].payload
  {
    seq(|pieces|, i requires 0 <= i < |pieces| => pieces[i].payload)
  }

  /** The payload stood in `before`, followed by CR, and that CR became NUL. */
  ghost predicate Nulled(before: string, after: string, p: Piece) {
    && p.End() < |before| == |after|
    && before[p.at..p.End()] == p.payload
    && before[p.End()] == CR && after[p.End()] == '\0'
  }

  ghost predicate IsTerminator(pieces: seq<Piece>, pos: nat) {
    exists i :: 0 <= i < |pieces| && pos == pieces[i].End()
  }

  /** The pieces lie in order, each NUL-terminated, and nothing but their terminators has changed. */
  ghost predicate Terminated(before: string, after: string, pieces: seq<Piece>) {
    && |before| == |after|
    && (forall i :: 0 <= i < |pieces| ==> Nulled(before, after, pieces[i]))
    && (forall i, j :: 0 <= i < j < |pieces| ==> pieces[i].End() < pieces[j].at)
    && (forall pos :: 0 <= pos < |before| && before[pos] != after[pos] ==> IsTerminator(pieces, pos))
  }

  /** One more element taken apart behind the others. */
  lemma TerminateOneMore(before: string, after: string, pieces: seq<Piece>, p: Piece)
    requires Terminated(before, after, pieces)
    requires p.End() < |before| && before[p.at..p.End()] == p.payload && before[p.End()] == CR
    requires forall i :: 0 <= i < |pieces| ==> pieces[i].End() < p.at
    ensures Terminated(before, after[p.End() := '\0'], pieces + [p])
  {
    var all, after' := pieces + [p], after[p.End() := '\0'];
    forall i | 0 <= i < |all| ensures Nulled(before, after', all[i]) {
      if i < |pieces| {
        assert Nulled(before, after, pieces[i]);
      }
    }
    forall pos | 0 <= pos < |before| && before[pos] != after'[pos] ensures IsTerminator(all, pos) {
      if pos == p.End() {
        assert all[|pieces|].End() == pos;
      } else {
        var i :| 0 <= i < |pieces| && pos == pieces[i].End();
        assert all[i].End() == pos;
      }
    }
  }

  /** The C string at a payload's address is the payload up to its first NUL. */
  lemma {:induction false} PayloadAsCString(payload: string, tail: string)
    ensures UpToNul(payload + ['\0'] + tail) == UpToNul(payload)
  {
    if payload != [] && payload[0] != '\0' {
      assert (payload + ['\0'] + tail)[1..] == payload[1..] + ['\0'] + tail;
      PayloadAsCString(payload[1..], tail);
    }
  }

  lemma TerminatedCString(before: string, after: string, pieces: seq<Piece>, i: nat)
    requires Terminated(before, after, pieces) && i < |pieces|
    ensures pieces[i].at <= |after| && UpToNul(after[pieces[i].at..]) == UpToNul(pieces[i].payload)
  {
    var p := pieces[i];
    assert Nulled(before, after, p);
    forall pos | p.at <= pos < p.End() ensures after[pos] == before[pos] {
      assert forall j :: 0 <= j < |pieces| ==> pieces[j].End() < p.at || p.End() <= pieces[j].End();
    }
    assert after[p.at..p.End()] == p.payload;
    assert after[p.at..] == p.payload + ['\0'] + after[p.End() + 1..];
    PayloadAsCString(p.payload, after[p.End() + 1..]);
  }

  /** What is left of the bytes from `idx` on has not been touched. */
  ghost predicate Untouched(before: string, after: string, idx: nat) {
    idx <= |before| == |after| && before[idx..] == after[idx..]
  }

  /** Where the element loop stands: the pieces taken, and `remaining` elements to find from `idx` on. */
  ghost predicate Taking(
      before: string, after: string, pieces: seq<Piece>, idx: nat, remaining: nat, all: Framed)
  {
    && Untouched(before, after, idx)
    && Terminated(before, after, pieces)
    && (forall i :: 0 <= i < |pieces| ==> pieces[i].End() < idx)
    && all == PrependAll(Payloads(pieces), Elements(before[idx..], remaining))
  }

  lemma TakeOne(
      before: string, after: string, pieces: seq<Piece>, idx: nat, remaining: nat, all: Framed, at: nat, end: nat)
    requires Taking(before, after, pieces, idx, remaining, all) && 0 < remaining
    requires idx < at <= end && end + 2 <= |after| && after[end] == CR
    requires Elements(after[idx..], remaining) == Prepend(after[at..end], Elements(after[end + 2..], remaining - 1))
    ensures Taking(before, after[end := '\0'], pieces + [Piece(at, after[at..end])], end + 2, remaining - 1, all)
  {
    hide Elements, Prepend, PrependAll, Terminated;
    var p := Piece(at, after[at..end]);
    UntouchedSlices(before, after, idx, at, end);
    TerminateOneMore(before, after, pieces, p);
    assert after[end := '\0'][end + 2..] == after[end + 2..];
    PrependLast(Payloads(pieces), p.payload, Elements(before[end + 2..], remaining - 1));
    assert Payloads(pieces + [p]) == Payloads(pieces) + [p.payload];
  }

  lemma UntouchedSlices(before: string, after: string, idx: nat, at: nat, end: nat)
    requires Untouched(before, after, idx) && idx <= at <= end && end + 2 <= |after|
    ensures before[at..end] == after[at..end] && before[end] == after[end] && before[end + 2..] == after[end + 2..]
  {
    assert forall k :: 0 <= k < |before| - idx ==>
      before[idx..][k] == before[idx + k] && after[idx..][k] == after[idx + k];
    assert forall k :: idx <= k < |before| ==> before[k] == before[idx..][k - idx] && after[k] == after[idx..][k - idx];
  }

  /** The element loop of `parseRespCommand` over the bytes `data[..end]`. */
  method TakeElements(data: array<char>, end: nat, first: nat, elements: nat)
    returns (ok: bool, pieces: seq<Piece>)
    requires first <= end <= data.Length
    modifies data
    ensures ok == Elements(old(data[..end])[first..], elements).Complete?
    ensures Terminated(old(data[..end]), data[..end], pieces) && data[end..] == old(data[end..])
    ensures forall i :: 0 <= i < |pieces| ==> first < pieces[i].at
    ensures ok ==> Payloads(pieces) == Elements(old(data[..end])[first..], elements).payloads
  {
    hide Elements, Prepend;
    ghost var before, all := data[..end], Elements(data[..end][first..], elements);
    var idx := first;
    pieces := [];
    PrependNone(all);
    for i := 0 to elements
      invariant first <= idx && Taking(before, data[..end], pieces, idx, elements - i, all)
      invariant data[end..] == old(data[end..])
      invariant forall j :: 0 <= j < |pieces| ==> first < pieces[j].at
    {
      var now := data[..end];
      var status, at, stop := ParseElement(now, idx, elements - i);
      if status != Done {
        return false, pieces;
      }
      TakeOne(before, now, pieces, idx, elements - i, all, at, stop);
      data[stop] := '\0';
      assert data[..end] == now[stop := '\0'];
      pieces := pieces + [Piece(at, now[at..stop])];
      idx := stop + 2;
    }
    AllTaken(Payloads(pieces), before[idx..]);
    ok := true;
  }

  /**
    `parseRespCommand` on the request that occupies `data[start..end]`. Whether or not it succeeds it
    changes nothing but payload terminators, all within the request, so the bytes of other pending
    requests are as they were. On success `pieces` are the elements in order.
   */
  method ParseRespCommand(data: array<char>, start: nat, end: nat) returns (ok: bool, pieces: seq<Piece>)
    requires start <= end <= data.Length
    modifies data
    ensures Terminated(old(data[..end]), data[..end], pieces) && data[end..] == old(data[end..])
    ensures forall i :: 0 <= i < |pieces| ==> start < pieces[i].at
    ensures ok == CommandOf(old(data[start..end])).Some?
    ensures ok ==> Payloads(pieces) == CommandOf(old(data[start..end])).value
    ensures forall i :: 0 <= i < |pieces| ==>
      pieces[i].at <= end && UpToNul(data[..end][pieces[i].at..]) == UpToNul(pieces[i].payload)
  {
    if start == end || data[start] != ARRAY_PREFIX {
      return false, [];
    }
    ghost var view := data[start..end];
    assert data[..end][start + 1..] == view[1..];
    var read, ended, elements, idx := ReadNumber(data[..end], start + 1);
    if !read || !ended || elements < 1 || elements > 3 {
      return false, [];
    }
    ok, pieces := TakeElements(data, end, idx, elements);
    forall i | 0 <= i < |pieces|
      ensures pieces[i].at <= end && UpToNul(data[..end][pieces[i].at..]) == UpToNul(pieces[i].payload)
    {
      TerminatedCString(old(data[..end]), data[..end], pieces, i);
    }
  }
}

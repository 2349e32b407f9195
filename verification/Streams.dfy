/**
  Reading a stream of items in chunks, for any scanner that finds whole items at the front of its input
  and either waits on or refuses a cut one.
 */
module Streams {
  import opened Cuts

  /** The requests a scan found, in order, and the unconsumed suffix; or Broken when the connection is closed. */
  datatype Scanned<R> = Scanned(reqs: seq<R>, rest: string) | Broken

  function Found<R>(r: R, s: Scanned<R>): Scanned<R> {
    if s.Scanned? then s.(reqs := [r] + s.reqs) else Broken
  }

  // ---------- Scanning ----------

  /** What stands at the front of the bytes: too little, something invalid, `n` bytes to skip, or a request. */
  datatype Step<R> = Stop | Fail | Skip(n: nat) | Take(req: R, n: nat)

  /** Repeats `next` over the bytes until it stops or fails. */
  function Scan<R>(next: string -> Step<R>, s: string): (r: Scanned<R>)
    ensures r.Scanned? ==> |r.rest| <= |s|
    decreases |s|
  {
    match next(s)
    case Stop => Scanned([], s)
    case Fail => Broken
    case Skip(n) => if 0 < n <= |s| then Scan(next, s[n..]) else Broken
    case Take(r, n) => if 0 < n <= |s| then Found(r, Scan(next, s[n..])) else Broken
  }

  lemma {:induction false} RestIsSuffix<R>(next: string -> Step<R>, s: string)
    requires Scan(next, s).Scanned?
    ensures s[|s| - |Scan(next, s).rest|..] == Scan(next, s).rest
    decreases |s|
  {
    match next(s)
    case Stop =>
    case Skip(n) =>
      RestIsSuffix(next, s[n..]);
    case Take(_, n) =>
      RestIsSuffix(next, s[n..]);
  }

  // ---------- Read passes ----------

  /** The retained bytes, and `bytesToErase` as earlier passes left it. */
  datatype Conn = Conn(buffer: string, bytesToErase: nat)

  /** Overrun: the requests were handled, and then more bytes were to be erased than the buffer holds. */
  datatype PassResult<R> = Success(reqs: seq<R>, conn: Conn) | Awaiting(conn: Conn) | Closed | Overrun(reqs: seq<R>)

  /** What a pass does once the scan of the whole buffer `b` has given `found`. */
  function Settle<R>(bytesToErase: nat, b: string, found: Scanned<R>): PassResult<R>
    requires found.Scanned? ==> |found.rest| <= |b|
  {
    match found
    case Broken => Closed
    case Scanned(reqs, rest) =>
      var toErase := bytesToErase + |b| - |rest|;
      if reqs == [] then Awaiting(Conn(b, toErase))
      else if toErase <= |b| then Success(reqs, Conn(b[toErase..], 0))
      else Overrun(reqs)
  }

  /** One read pass and, when it found requests, the erasure that follows their processing. */
  function Pass<R>(next: string -> Step<R>, c: Conn, chunk: string): PassResult<R> {
    Settle(c.bytesToErase, c.buffer + chunk, Scan(next, c.buffer + chunk))
  }

  /** A byte carried into a pass that skips it again costs the next item its first byte. */
  lemma CarriedByteLost<R>(next: string -> Step<R>, c: Conn, chunk: string, r: R, tail: string)
    requires c.bytesToErase == 1 && 0 < |tail| && 1 + |tail| < |c.buffer + chunk|
    requires var b := c.buffer + chunk;
      && next(b) == Skip(1) && next(b[1..]) == Take(r, |b| - 1 - |tail|)
      && b[|b| - |tail|..] == tail && next(tail) == Stop
    ensures Pass(next, c, chunk) == Success([r], Conn(tail[1..], 0))
  {
    var b := c.buffer + chunk;
    assert b[1..][|b| - 1 - |tail|..] == b[|b| - |tail|..];
    assert Scan(next, tail) == Scanned([], tail);
    assert Scan(next, b[1..]) == Found(r, Scan(next, tail));
    assert Scan(next, b) == Scan(next, b[1..]) == Scanned([r], tail);
    assert b[|b| - |tail| + 1..] == b[|b| - |tail|..][1..];
  }

  /** With nothing behind the item, a byte carried in makes the erasure run past the end. */
  lemma CarriedByteOverruns<R>(next: string -> Step<R>, c: Conn, chunk: string, r: R)
    requires c.bytesToErase == 1 && 1 < |c.buffer + chunk|
    requires var b := c.buffer + chunk;
      next(b) == Skip(1) && next(b[1..]) == Take(r, |b| - 1) && next([]) == Stop
    ensures Pass(next, c, chunk) == Overrun([r])
  {
    var b := c.buffer + chunk;
    assert b[1..][|b| - 1..] == [];
    assert Scan(next, []) == Scanned([], []);
    assert Scan(next, b[1..]) == Found(r, Scan(next, []));
    assert Scan(next, b) == Scan(next, b[1..]) == Scanned([r], []);
  }

  /** Wrecked: an erasure ran past the end of the buffer, and nothing can be said of what follows. */
  datatype Link = Open(conn: Conn) | Shut | Wrecked

  /** The requests handed over so far, and the connection. */
  datatype Session<R> = Session(reqs: seq<R>, link: Link)

  function Advance<R>(s: Session<R>, p: PassResult<R>): Session<R> {
    match p
    case Success(reqs, conn) => Session(s.reqs + reqs, Open(conn))
    case Awaiting(conn) => Session(s.reqs, Open(conn))
    case Closed => Session(s.reqs, Shut)
    case Overrun(reqs) => Session(s.reqs + reqs, Wrecked)
  }

  function Serve<R>(next: string -> Step<R>, chunks: seq<string>): Session<R> {
    if chunks == [] then Session([], Open(Conn([], 0)))
    else
      var s := Serve(next, chunks[..|chunks| - 1]);
      if !s.link.Open? then s else Advance(s, Pass(next, s.link.conn, chunks[|chunks| - 1]))
  }

  function Joined(chunks: seq<string>): string {
    if chunks == [] then [] else Joined(chunks[..|chunks| - 1]) + chunks[|chunks| - 1]
  }

  // ---------- Items ----------

  /** An item's bytes, the request it stands for, and the cuts at which the server refuses to wait. */
  datatype Item<!R> = Item(wire: string, req: R, refused: nat -> bool)

  ghost predicate Lexes<R(!new)>(next: string -> Step<R>, item: Item<R>) {
    && item.wire != []
    && (forall more: string :: next(item.wire + more) == Take(item.req, |item.wire|))
    && (forall c :: 0 <= c < |item.wire| ==> next(item.wire[..c]) == if item.refused(c) then Fail else Stop)
  }

  ghost predicate AllLex<R(!new)>(next: string -> Step<R>, items: seq<Item<R>>) {
    && next([]) == Stop
    && forall i :: 0 <= i < |items| ==> Lexes(next, items[i])
  }

  function Wires<R>(items: seq<Item<R>>): (ws: seq<string>)
    ensures |ws| == |items| && forall i :: 0 <= i < |items| ==> ws[i] == items[i].wire
  {
    seq(|items|, i requires 0 <= i < |items| => items[i].wire)
  }

  function Requests<R>(items: seq<Item<R>>): (rs: seq<R>)
    ensures |rs| == |items| && forall i :: 0 <= i < |items| ==> rs[i] == items[i].req
  {
    seq(|items|, i requires 0 <= i < |items| => items[i].req)
  }

  lemma RequestsSplit<R>(items: seq<Item<R>>, k: nat, k2: nat)
    requires k + k2 <= |items|
    ensures Requests(items[..k]) + Requests(items[k..][..k2]) == Requests(items[..k + k2])
  {
  }

  function Stream<R>(items: seq<Item<R>>): string {
    Flat(Wires(items))
  }

  /** The first `n` bytes of the stream end where the server refuses to wait. */
  predicate RefusedAt<R>(items: seq<Item<R>>, n: nat) {
    var k := Whole(Wires(items), n);
    k < |items| && items[k].refused(|Tail(Wires(items), n)|)
  }

  // ---------- Scanning a prefix ----------

  ghost predicate FoundBefore<R>(next: string -> Step<R>, item: Item<R>, more: string) {
    Scan(next, item.wire + more) == Found(item.req, Scan(next, more))
  }

  ghost predicate CutScans<R>(next: string -> Step<R>, keep: string -> string, item: Item<R>, c: nat)
    requires c < |item.wire|
  {
    Scan(next, item.wire[..c]) == if item.refused(c) then Broken else Scanned([], keep(item.wire[..c]))
  }

  /** An item is found whole in front of anything; cut, it is refused, or `keep` says which of its bytes are left. */
  ghost predicate Scans<R(!new)>(next: string -> Step<R>, keep: string -> string, item: Item<R>) {
    && item.wire != []
    && (forall more: string :: FoundBefore(next, item, more))
    && (forall c: nat :: c < |item.wire| ==> CutScans(next, keep, item, c))
  }

  ghost predicate AllScan<R(!new)>(next: string -> Step<R>, keep: string -> string, items: seq<Item<R>>) {
    && next([]) == Stop && keep([]) == []
    && forall i :: 0 <= i < |items| ==> Scans(next, keep, items[i])
  }

  /** What a scan of the first `n` bytes finds. */
  function Expected<R>(keep: string -> string, items: seq<Item<R>>, n: nat): Scanned<R> {
    if RefusedAt(items, n) then Broken
    else Scanned(Requests(items[..Whole(Wires(items), n)]), keep(Tail(Wires(items), n)))
  }

  lemma ExpectedBehindFirst<R>(keep: string -> string, items: seq<Item<R>>, n: nat)
    requires items != [] && |items[0].wire| <= n
    ensures Expected(keep, items, n) == Found(items[0].req, Expected(keep, items[1..], n - |items[0].wire|))
  {
    var ws, more, m := Wires(items), items[1..], n - |items[0].wire|;
    assert Wires(more) == ws[1..];
    var k := Whole(ws[1..], m);
    assert Whole(ws, n) == 1 + k && Tail(ws, n) == Tail(ws[1..], m);
    RequestsSplit(items, 1, k);
    assert Requests(items[..1]) == [items[0].req];
  }

  lemma ScanInFirst<R(!new)>(next: string -> Step<R>, keep: string -> string, items: seq<Item<R>>, n: nat)
    requires AllScan(next, keep, items) && items != [] && n < |items[0].wire|
    ensures Scan(next, items[0].wire[..n]) == Expected(keep, items, n)
  {
    hide Scan;
    assert Scans(next, keep, items[0]) && CutScans(next, keep, items[0], n);
  }

  lemma ScanBehindFirst<R(!new)>(
      next: string -> Step<R>, keep: string -> string, items: seq<Item<R>>, p: string, n: nat)
    requires AllScan(next, keep, items) && items != [] && |items[0].wire| <= n
    requires Scan(next, p) == Expected(keep, items[1..], n - |items[0].wire|)
    ensures Scan(next, items[0].wire + p) == Expected(keep, items, n)
  {
    ExpectedBehindFirst(keep, items, n);
    hide Scan, Expected;
    assert Scans(next, keep, items[0]) && FoundBefore(next, items[0], p);
  }

  lemma ScanNothing<R(!new)>(next: string -> Step<R>, keep: string -> string, items: seq<Item<R>>, n: nat)
    requires AllScan(next, keep, items) && items == [] && n <= |Stream(items)|
    ensures Scan(next, Stream(items)[..n]) == Expected(keep, items, n)
  {
    assert Stream(items)[..n] == [];
  }

  lemma {:induction false} ScanPrefix<R(!new)>(
      next: string -> Step<R>, keep: string -> string, items: seq<Item<R>>, n: nat)
    requires AllScan(next, keep, items) && n <= |Stream(items)|
    ensures Scan(next, Stream(items)[..n]) == Expected(keep, items, n)
  {
    hide Scan, Expected;
    if items == [] {
      ScanNothing(next, keep, items, n);
    } else {
      var w, rest := items[0].wire, Stream(items[1..]);
      assert Wires(items[1..]) == Wires(items)[1..];
      assert Stream(items) == w + rest;
      if n < |w| {
        assert (w + rest)[..n] == w[..n];
        ScanInFirst(next, keep, items, n);
      } else {
        PrefixOfConcat(w, rest, n);
        ScanPrefix(next, keep, items[1..], n - |w|);
        ScanBehindFirst(next, keep, items, rest[..n - |w|], n);
      }
    }
  }

  function Same(s: string): string { s }

  lemma LexesScans<R(!new)>(next: string -> Step<R>, item: Item<R>)
    requires Lexes(next, item)
    ensures Scans(next, Same, item)
  {
    forall more: string ensures FoundBefore(next, item, more) {
      assert next(item.wire + more) == Take(item.req, |item.wire|) && (item.wire + more)[|item.wire|..] == more;
    }
  }

  lemma AllLexScan<R(!new)>(next: string -> Step<R>, items: seq<Item<R>>)
    requires AllLex(next, items)
    ensures AllScan(next, Same, items)
  {
    forall i | 0 <= i < |items| ensures Scans(next, Same, items[i]) {
      LexesScans(next, items[i]);
    }
  }

  /** Counting the items may stop at `n` and go on with the ones not yet whole. */
  lemma ResumeItems<R>(items: seq<Item<R>>, n: nat, n': nat) returns (more: seq<Item<R>>, m: nat)
    requires n <= n' <= |Stream(items)|
    ensures var ws := Wires(items);
      && more == items[Whole(ws, n)..]
      && Whole(ws, n') == Whole(ws, n) + Whole(Wires(more), m) && Tail(ws, n') == Tail(Wires(more), m)
      && RefusedAt(items, n') == RefusedAt(more, m)
      && m <= |Stream(more)| && Tail(ws, n) + Stream(items)[n..n'] == Stream(more)[..m]
  {
    var ws := Wires(items);
    var k := Whole(ws, n);
    more, m := items[k..], |Tail(ws, n)| + n' - n;
    ResumeCount(ws, n, n');
    ResumeBytes(ws, n, n');
    assert Wires(more) == ws[k..];
    RefusedResumed(items, k, n', m);
  }

  lemma RefusedResumed<R>(items: seq<Item<R>>, k: nat, n': nat, m: nat)
    requires k <= |items| && Whole(Wires(items), n') == k + Whole(Wires(items[k..]), m)
    requires Tail(Wires(items), n') == Tail(Wires(items[k..]), m)
    ensures RefusedAt(items, n') == RefusedAt(items[k..], m)
  {
  }

  /** What the scan of a pass finds: the items that became whole, and what is left of the one still incomplete. */
  lemma ScanOfPass<R(!new)>(next: string -> Step<R>, keep: string -> string, items: seq<Item<R>>, n: nat, n': nat)
      returns (reqs: seq<R>)
    requires AllScan(next, keep, items) && n <= n' <= |Stream(items)|
    ensures var ws := Wires(items);
      && Scan(next, Tail(ws, n) + Stream(items)[n..n']) ==
         (if RefusedAt(items, n') then Broken else Scanned(reqs, keep(Tail(ws, n'))))
      && Requests(items[..Whole(ws, n)]) + reqs == Requests(items[..Whole(ws, n')])
      && |reqs| == Whole(ws, n') - Whole(ws, n)
  {
    hide Scan;
    var more, m := ResumeItems(items, n, n');
    ScanPrefix(next, keep, more, m);
    var k2 := Whole(Wires(more), m);
    reqs := Requests(more[..k2]);
    RequestsSplit(items, Whole(Wires(items), n), k2);
  }

  /** Between `n` and `n'` bytes no item became whole: the cut one just got longer. */
  lemma TailGrows(ws: seq<string>, n: nat, n': nat)
    requires n <= n' <= |Flat(ws)| && Whole(ws, n') == Whole(ws, n)
    ensures Tail(ws, n') == Tail(ws, n) + Flat(ws)[n..n']
  {
    var k, m := Whole(ws, n), |Tail(ws, n)| + n' - n;
    ResumeCount(ws, n, n');
    ResumeBytes(ws, n, n');
    TailBegins(ws[k..], m);
  }

  // ---------- A session stays in step with the stream ----------

  /** The state of a session after the first `n` stream bytes, none of its cuts refused. */
  ghost predicate InStep<R>(items: seq<Item<R>>, n: nat, s: Session<R>) {
    s == Session(Requests(items[..Whole(Wires(items), n)]), Open(Conn(Tail(Wires(items), n), 0)))
  }

  /** With nothing carried over, a pass keeps exactly the unconsumed bytes. */
  lemma AdvanceExact<R>(s: Session<R>, t: string, chunk: string, reqs: seq<R>, rest: string)
    requires s.link == Open(Conn(t, 0)) && |rest| <= |t + chunk| && (t + chunk)[|t + chunk| - |rest|..] == rest
    requires reqs == [] ==> rest == t + chunk
    ensures Advance(s, Settle(0, t + chunk, Scanned(reqs, rest))) == Session(s.reqs + reqs, Open(Conn(rest, 0)))
  {
  }

  lemma AdvanceStaysInStep<R(!new)>(
      next: string -> Step<R>, items: seq<Item<R>>, n: nat, n': nat, s: Session<R>, chunk: string)
    requires AllLex(next, items)
    requires n <= n' <= |Stream(items)| && Stream(items)[n..n'] == chunk && InStep(items, n, s)
    ensures var s' := Advance(s, Pass(next, s.link.conn, chunk));
      if RefusedAt(items, n') then s' == Session(s.reqs, Shut) else InStep(items, n', s')
  {
    AllLexScan(next, items);
    var reqs := ScanOfPass(next, Same, items, n, n');
    var t, rest := Tail(Wires(items), n), Tail(Wires(items), n');
    hide Scan;
    if !RefusedAt(items, n') {
      RestIsSuffix(next, t + chunk);
      if reqs == [] {
        TailGrows(Wires(items), n, n');
      }
      AdvanceExact(s, t, chunk, reqs, rest);
    }
  }

  predicate RefusedAfter(refused: nat -> bool, chunks: seq<string>, i: nat) {
    0 < i <= |chunks| && refused(|Joined(chunks[..i])|)
  }

  /** Some read pass ended where the server refuses to wait. */
  ghost predicate RefusedSomewhere(refused: nat -> bool, chunks: seq<string>) {
    exists i :: RefusedAfter(refused, chunks, i)
  }

  lemma RefusedInside(refused: nat -> bool, chunks: seq<string>, i: nat)
    requires i < |chunks|
    ensures RefusedAfter(refused, chunks, i) <==> RefusedAfter(refused, chunks[..|chunks| - 1], i)
  {
    assert chunks[..|chunks| - 1][..i] == chunks[..i];
  }

  lemma RefusedInPrefix(refused: nat -> bool, chunks: seq<string>)
    requires chunks != []
    ensures RefusedSomewhere(refused, chunks) <==>
      RefusedSomewhere(refused, chunks[..|chunks| - 1]) || refused(|Joined(chunks)|)
  {
    var before := chunks[..|chunks| - 1];
    assert RefusedAfter(refused, chunks, |chunks|) <==> refused(|Joined(chunks)|) by {
      assert chunks[..|chunks|] == chunks;
    }
    forall i: nat | i < |chunks| ensures RefusedAfter(refused, chunks, i) <==> RefusedAfter(refused, before, i) {
      RefusedInside(refused, chunks, i);
    }
  }

  lemma ChunkOfStream(before: string, chunk: string, stream: string)
    requires before + chunk <= stream
    ensures stream[|before|..|before| + |chunk|] == chunk
  {
    assert stream[..|before| + |chunk|] == before + chunk;
  }

  /**
    For a stream read in any chunks, the connection stays open exactly when no pass ended at a refused
    cut. Then the requests are exactly the items received whole, in order, and the retained buffer is
    exactly the bytes of the item still incomplete.
   */
  lemma {:induction false} SessionFollowsStream<R(!new)>(
      next: string -> Step<R>, items: seq<Item<R>>, refused: nat -> bool, chunks: seq<string>)
    requires AllLex(next, items) && Joined(chunks) <= Stream(items)
    requires forall n: nat :: refused(n) == RefusedAt(items, n)
    ensures RefusedSomewhere(refused, chunks) <==> Serve(next, chunks).link.Shut?
    ensures !RefusedSomewhere(refused, chunks) ==> InStep(items, |Joined(chunks)|, Serve(next, chunks))
  {
    if chunks != [] {
      var before, chunk := chunks[..|chunks| - 1], chunks[|chunks| - 1];
      SessionFollowsStream(next, items, refused, before);
      RefusedInPrefix(refused, chunks);
      if !RefusedSomewhere(refused, before) {
        ChunkOfStream(Joined(before), chunk, Stream(items));
        AdvanceStaysInStep(next, items, |Joined(before)|, |Joined(chunks)|, Serve(next, before), chunk);
      }
    } else {
      StartsInStep(items);
    }
  }

  /**
    A connection closed by pass `f` has handed over the items whole before that pass began, and nothing
    since: whole items the pass itself brought are dropped with it, and later bytes are not read.
   */
  lemma {:induction false} SessionClosed<R(!new)>(
      next: string -> Step<R>, items: seq<Item<R>>, refused: nat -> bool, chunks: seq<string>, f: nat)
    requires AllLex(next, items) && Joined(chunks) <= Stream(items)
    requires forall n: nat :: refused(n) == RefusedAt(items, n)
    requires RefusedAfter(refused, chunks, f) && !RefusedSomewhere(refused, chunks[..f - 1])
    ensures Serve(next, chunks)
         == Session(Requests(items[..Whole(Wires(items), |Joined(chunks[..f - 1])|)]), Shut)
    decreases |chunks|
  {
    var before, chunk := chunks[..|chunks| - 1], chunks[|chunks| - 1];
    ChunkOfStream(Joined(before), chunk, Stream(items));
    if f == |chunks| {
      assert chunks[..f] == chunks;
      SessionFollowsStream(next, items, refused, before);
      AdvanceStaysInStep(next, items, |Joined(before)|, |Joined(chunks)|, Serve(next, before), chunk);
    } else {
      RefusedInside(refused, chunks, f);
      assert before[..f - 1] == chunks[..f - 1];
      SessionClosed(next, items, refused, before, f);
    }
  }

  lemma StartsInStep<R>(items: seq<Item<R>>)
    requires forall i :: 0 <= i < |items| ==> items[i].wire != []
    ensures InStep(items, 0, Session([], Open(Conn([], 0))))
  {
  }
}

/** Streams with separators standing alone between the items, and when a session survives them. */
module LoneSeparators {
  import opened Common
  import opened Cuts
  import opened Streams

  /** How many separators come first. */
  function Leading(pad: char, s: string): (n: nat)
    ensures n <= |s| && (n < |s| ==> s[n] != pad) && forall i :: 0 <= i < n ==> s[i] == pad
  {
    if s != [] && s[0] == pad then 1 + Leading(pad, s[1..]) else 0
  }

  /** The bytes behind the leading separators. */
  function Strip(pad: char, s: string): string {
    s[Leading(pad, s)..]
  }

  lemma LeadingIs(pad: char, s: string, n: nat)
    requires n <= |s| && (n < |s| ==> s[n] != pad) && forall i :: 0 <= i < n ==> s[i] == pad
    ensures Leading(pad, s) == n
  {
  }

  function Pads(pad: char, k: nat): (s: string)
    ensures |s| == k && forall i :: 0 <= i < k ==> s[i] == pad
  {
    seq(k, _ => pad)
  }

  /** The scanner skips a separator wherever one is next. */
  ghost predicate Skips<R(!new)>(next: string -> Step<R>, pad: char) {
    next([]) == Stop && forall s: string :: s != [] && s[0] == pad ==> next(s) == Skip(1)
  }

  lemma {:induction false} ScanSkips<R(!new)>(next: string -> Step<R>, pad: char, s: string, k: nat)
    requires Skips(next, pad) && k <= |s| && forall i :: 0 <= i < k ==> s[i] == pad
    ensures Scan(next, s) == Scan(next, s[k..])
  {
    if k > 0 {
      ScanSkips(next, pad, s[1..], k - 1);
      assert s[1..][k - 1..] == s[k..];
    } else {
      assert s[0..] == s;
    }
  }

  /** Leading separators make no difference to a scan. */
  lemma ScanStrips<R(!new)>(next: string -> Step<R>, pad: char, s: string, more: string)
    requires Skips(next, pad)
    ensures Scan(next, s + more) == Scan(next, Strip(pad, s) + more)
  {
    var k := Leading(pad, s);
    ScanSkips(next, pad, s + more, k);
    assert (s + more)[k..] == s[k..] + more;
  }

  // ---------- Padded items ----------

  /** An item behind `pads` lone separators. */
  datatype Padded<!R> = Padded(pads: nat, item: Item<R>)

  /** The separators and the item behind them, taken as one item. */
  function AsItem<R>(pad: char, p: Padded<R>): Item<R> {
    Item(Pads(pad, p.pads) + p.item.wire, p.item.req, (c: nat) => p.pads < c && p.item.refused(c - p.pads))
  }

  function AsItems<R>(pad: char, ps: seq<Padded<R>>): (items: seq<Item<R>>)
    ensures |items| == |ps| && forall i :: 0 <= i < |ps| ==> items[i] == AsItem(pad, ps[i])
  {
    seq(|ps|, i requires 0 <= i < |ps| => AsItem(pad, ps[i]))
  }

  /** The scanner skips separators, and finds every item behind the separators in front of it. */
  ghost predicate LexPadded<R(!new)>(next: string -> Step<R>, pad: char, items: seq<Item<R>>) {
    Skips(next, pad) && AllScan(next, Stripper(pad), items)
  }

  function Stripper(pad: char): string -> string {
    (s: string) => Strip(pad, s)
  }

  lemma ItemStarts<R(!new)>(next: string -> Step<R>, pad: char, item: Item<R>)
    requires Skips(next, pad) && Lexes(next, item)
    ensures item.wire[0] != pad
  {
    assert item.wire + [] == item.wire;
    assert next(item.wire + []) == Take(item.req, |item.wire|);
  }

  /** A padded item at the front is taken whole. */
  lemma ScanPadded<R(!new)>(next: string -> Step<R>, pad: char, p: Padded<R>, more: string)
    requires Skips(next, pad) && Lexes(next, p.item)
    ensures Scan(next, AsItem(pad, p).wire + more) == Found(p.item.req, Scan(next, more))
  {
    var s, t := AsItem(pad, p).wire + more, p.item.wire + more;
    ScanSkips(next, pad, s, p.pads);
    assert s[p.pads..] == t;
    assert next(t) == Take(p.item.req, |p.item.wire|) && t[|p.item.wire|..] == more;
  }

  /** A cut one is waited on or refused. */
  lemma ScanCut<R(!new)>(next: string -> Step<R>, pad: char, p: Padded<R>, c: nat)
    requires Skips(next, pad) && Lexes(next, p.item) && c < |AsItem(pad, p).wire|
    ensures var s := AsItem(pad, p).wire[..c];
      Scan(next, s) == if AsItem(pad, p).refused(c) then Broken else Scanned([], Strip(pad, s))
  {
    var s := AsItem(pad, p).wire[..c];
    if c <= p.pads {
      LeadingIs(pad, s, c);
      ScanSkips(next, pad, s, c);
    } else {
      ItemStarts(next, pad, p.item);
      LeadingIs(pad, s, p.pads);
      ScanSkips(next, pad, s, p.pads);
      var t := p.item.wire[..c - p.pads];
      assert s[p.pads..] == t;
      assert next(t) == if p.item.refused(c - p.pads) then Fail else Stop;
    }
  }

  lemma PaddedScans<R(!new)>(next: string -> Step<R>, pad: char, p: Padded<R>)
    requires Skips(next, pad) && Lexes(next, p.item)
    ensures Scans(next, Stripper(pad), AsItem(pad, p))
  {
    var item := AsItem(pad, p);
    forall more: string ensures FoundBefore(next, item, more) {
      ScanPadded(next, pad, p, more);
    }
    forall c: nat | c < |item.wire| ensures CutScans(next, Stripper(pad), item, c) {
      ScanCut(next, pad, p, c);
    }
  }

  lemma PaddedLex<R(!new)>(next: string -> Step<R>, pad: char, ps: seq<Padded<R>>)
    requires Skips(next, pad) && forall i :: 0 <= i < |ps| ==> Lexes(next, ps[i].item)
    ensures LexPadded(next, pad, AsItems(pad, ps))
  {
    forall i | 0 <= i < |ps| ensures Scans(next, Stripper(pad), AsItems(pad, ps)[i]) {
      PaddedScans(next, pad, ps[i]);
    }
    assert Stripper(pad)([]) == [];
  }

  // ---------- One pass ----------

  lemma {:induction false} StripExtends(pad: char, t: string, chunk: string)
    requires Strip(pad, t) != [] || chunk == [] || chunk[0] != pad
    ensures Strip(pad, t + chunk) == Strip(pad, t) + chunk
  {
    var k := Leading(pad, t);
    LeadingIs(pad, t + chunk, k);
    assert (t + chunk)[k..] == t[k..] + chunk;
  }

  lemma StripShortens(pad: char, t: string, chunk: string)
    requires Strip(pad, t) == [] && chunk != [] && chunk[0] == pad
    ensures |Strip(pad, t + chunk)| < |chunk|
  {
    var s := t + chunk;
    assert forall i :: 0 <= i <= |t| ==> s[i] == pad;
  }

  /** What the scan of a pass finds: the items that became whole since `n`. */
  lemma ScanSince<R(!new)>(next: string -> Step<R>, pad: char, items: seq<Item<R>>, n: nat, n': nat)
      returns (reqs: seq<R>)
    requires LexPadded(next, pad, items) && n <= n' <= |Stream(items)|
    ensures var ws := Wires(items);
      && Requests(items[..Whole(ws, n)]) + reqs == Requests(items[..Whole(ws, n')])
      && |reqs| == Whole(ws, n') - Whole(ws, n)
      && Scan(next, Strip(pad, Tail(ws, n)) + Stream(items)[n..n']) ==
         if RefusedAt(items, n') then Broken else Scanned(reqs, Strip(pad, Tail(ws, n')))
  {
    hide Scan, Strip, AllScan, Skips, RefusedAt;
    ScanStrips(next, pad, Tail(Wires(items), n), Stream(items)[n..n']);
    reqs := ScanOfPass(next, Stripper(pad), items, n, n');
  }

  /** The session has handed over the items whole in `n` bytes and keeps exactly the bytes of the cut one. */
  ghost predicate Exact<R>(pad: char, items: seq<Item<R>>, n: nat, s: Session<R>) {
    var ws := Wires(items);
    s == Session(Requests(items[..Whole(ws, n)]), Open(Conn(Strip(pad, Tail(ws, n)), 0)))
  }

  /** It has handed over the right items, but still holds separators it counts as consumed, from byte `n0` on. */
  ghost predicate Carrying<R>(pad: char, items: seq<Item<R>>, n0: nat, n: nat, s: Session<R>) {
    var ws := Wires(items);
    && n0 < n <= |Flat(ws)| && Whole(ws, n) == Whole(ws, n0) && Strip(pad, Tail(ws, n0)) == []
    && s.reqs == Requests(items[..Whole(ws, n)])
    && s.link.Open? && s.link.conn.buffer == Flat(ws)[n0..n] && s.link.conn.bytesToErase > 0
  }

  /** Nothing was retained, and the new bytes begin with a separator and complete no item. */
  predicate StallsBetween<R>(pad: char, items: seq<Item<R>>, n: nat, n': nat)
    requires n <= n' <= |Stream(items)|
  {
    var ws := Wires(items);
    Strip(pad, Tail(ws, n)) == [] && n < n' && Flat(ws)[n] == pad && Whole(ws, n') == Whole(ws, n)
  }

  /** What a pass that finds nothing leaves behind. */
  lemma AdvanceWaits<R>(s: Session<R>, b: string, carried: nat, rest: string)
    requires |rest| <= |b|
    ensures Advance(s, Settle(carried, b, Scanned([], rest))) == Session(s.reqs, Open(Conn(b, carried + |b| - |rest|)))
  {
  }

  /** The bytes kept at `n`, and what becomes of them by `n'`, when no pass stalls in between. */
  lemma KeptBytes<R>(pad: char, items: seq<Item<R>>, n: nat, n': nat)
    requires n <= n' <= |Stream(items)|
    requires var ws := Wires(items); Whole(ws, n') == Whole(ws, n)
    ensures var ws := Wires(items);
      var kept, chunk, rest := Strip(pad, Tail(ws, n)), Flat(ws)[n..n'], Strip(pad, Tail(ws, n'));
      if StallsBetween(pad, items, n, n') then kept == [] && |rest| < |chunk| else rest == kept + chunk
  {
    hide Leading;
    var ws := Wires(items);
    var chunk, t := Flat(ws)[n..n'], Tail(ws, n);
    TailGrows(ws, n, n');
    if StallsBetween(pad, items, n, n') {
      StripShortens(pad, t, chunk);
    } else {
      StripExtends(pad, t, chunk);
    }
  }

  lemma PassFromExact<R(!new)>(
      next: string -> Step<R>, pad: char, items: seq<Item<R>>, n: nat, n': nat, s: Session<R>)
    requires LexPadded(next, pad, items) && n <= n' <= |Stream(items)| && !RefusedAt(items, n')
    requires Exact(pad, items, n, s)
    ensures var s' := Advance(s, Pass(next, s.link.conn, Stream(items)[n..n']));
      if StallsBetween(pad, items, n, n') then Carrying(pad, items, n, n', s') else Exact(pad, items, n', s')
  {
    hide Scan, Strip, LexPadded, RefusedAt;
    var ws := Wires(items);
    var kept, chunk, rest := Strip(pad, Tail(ws, n)), Flat(ws)[n..n'], Strip(pad, Tail(ws, n'));
    var reqs := ScanSince(next, pad, items, n, n');
    RestIsSuffix(next, kept + chunk);
    if Whole(ws, n') == Whole(ws, n) {
      KeptBytes(pad, items, n, n');
    }
    if StallsBetween(pad, items, n, n') {
      AdvanceWaits(s, kept + chunk, 0, rest);
      assert kept + chunk == chunk;
    } else {
      AdvanceExact(s, kept, chunk, reqs, rest);
    }
  }

  /** Erasing more than was scanned loses bytes of what should be kept, or runs past the end. */
  lemma AdvanceLoses<R>(s: Session<R>, b: string, carried: nat, reqs: seq<R>, rest: string)
    requires |rest| <= |b| && carried > 0 && reqs != []
    ensures Advance(s, Settle(carried, b, Scanned(reqs, rest))).link != Open(Conn(rest, 0))
  {
  }

  lemma SlicesJoin(all: string, n0: nat, n: nat, n': nat)
    requires n0 <= n <= n' <= |all|
    ensures all[n0..n] + all[n..n'] == all[n0..n']
  {
  }

  lemma NothingBefore(a: string, b: string)
    requires a == []
    ensures a + b == b
  {
  }

  /** The bytes carried from `n0` on, and what scanning them again finds. */
  lemma ScanCarried<R(!new)>(next: string -> Step<R>, pad: char, items: seq<Item<R>>, n0: nat, n: nat, n': nat)
      returns (reqs: seq<R>)
    requires LexPadded(next, pad, items) && n0 <= n <= n' <= |Stream(items)|
    requires Strip(pad, Tail(Wires(items), n0)) == []
    ensures var ws := Wires(items);
      var all := Stream(items);
      && all[n0..n] + all[n..n'] == all[n0..n'] && |reqs| == Whole(ws, n') - Whole(ws, n0)
      && Scan(next, all[n0..n']) ==
         if RefusedAt(items, n') then Broken else Scanned(reqs, Strip(pad, Tail(ws, n')))
  {
    hide Scan, Strip, LexPadded, RefusedAt;
    var ws := Wires(items);
    SlicesJoin(Stream(items), n0, n, n');
    NothingBefore(Strip(pad, Tail(ws, n0)), Stream(items)[n0..n']);
    reqs := ScanSince(next, pad, items, n0, n');
  }

  /** Once separators are carried, the next item that becomes whole costs bytes or worse. */
  lemma PassFromCarrying<R(!new)>(
      next: string -> Step<R>, pad: char, items: seq<Item<R>>, n0: nat, n: nat, n': nat, s: Session<R>)
    requires LexPadded(next, pad, items) && n <= n' <= |Stream(items)| && !RefusedAt(items, n')
    requires Carrying(pad, items, n0, n, s)
    ensures var ws := Wires(items);
      var s' := Advance(s, Pass(next, s.link.conn, Stream(items)[n..n']));
      if Whole(ws, n') == Whole(ws, n) then Carrying(pad, items, n0, n', s') else !Exact(pad, items, n', s')
  {
    hide Scan, Strip, LexPadded, RefusedAt;
    var ws := Wires(items);
    var reqs := ScanCarried(next, pad, items, n0, n, n');
    var b, rest := Stream(items)[n0..n'], Strip(pad, Tail(ws, n'));
    if reqs == [] {
      AdvanceWaits(s, b, s.link.conn.bytesToErase, rest);
    } else {
      AdvanceLoses(s, b, s.link.conn.bytesToErase, reqs, rest);
    }
  }

  /** A pass that ends at a refused cut closes the connection and hands over nothing more. */
  lemma PassRefused<R(!new)>(
      next: string -> Step<R>, pad: char, items: seq<Item<R>>, n0: nat, n: nat, n': nat, s: Session<R>)
    requires LexPadded(next, pad, items) && n <= n' <= |Stream(items)| && RefusedAt(items, n')
    requires Exact(pad, items, n, s) || Carrying(pad, items, n0, n, s)
    ensures Advance(s, Pass(next, s.link.conn, Stream(items)[n..n'])) == Session(s.reqs, Shut)
  {
    hide Scan, Strip, LexPadded, RefusedAt;
    if Exact(pad, items, n, s) {
      var _ := ScanSince(next, pad, items, n, n');
    } else {
      var _ := ScanCarried(next, pad, items, n0, n, n');
    }
  }

  // ---------- A whole session ----------

  /** What is said of a session: exact, carrying separators, shut; and of a pass: stalls, completes, refused. */
  datatype Names = Names(
    exact: nat -> bool, carry: nat -> bool, shut: nat -> bool,
    stall: nat -> bool, done: nat -> bool, refused: nat -> bool)

  /** How a pass moves a session. */
  predicate Moves(
      exact: bool, carry: bool, shut: bool, stall: bool, done: bool, refused: bool,
      exact': bool, carry': bool, shut': bool) {
    && (exact' || carry' ==> !shut')
    && (stall ==> !done)
    && (shut ==> shut')
    && ((exact || carry) && refused ==> shut')
    && (exact && !refused ==> if stall then carry' else exact')
    && (carry && !refused ==> if done then !exact' else carry')
  }

  ghost predicate Moved(v: Names, k: nat) {
    Moves(v.exact(k), v.carry(k), v.shut(k), v.stall(k), v.done(k), v.refused(k),
          v.exact(k + 1), v.carry(k + 1), v.shut(k + 1))
  }

  ghost predicate Tracks(v: Names, n: nat) {
    v.exact(0) && !v.shut(0) && forall k: nat :: k < n ==> Moved(v, k)
  }

  /** A pass that stalls is followed by one that completes an item. */
  ghost predicate Spoiled(v: Names, n: nat) {
    exists i, j :: 0 <= i < j < n && v.stall(i) && v.done(j)
  }

  /** A pass that ends at a refused cut completes an item or is followed by one that does. */
  ghost predicate CutOff(v: Names, n: nat) {
    exists i, j :: 0 <= i <= j < n && v.refused(i) && v.done(j)
  }

  ghost predicate Refuses(v: Names, n: nat) {
    exists i :: 0 <= i < n && v.refused(i)
  }

  /** Every pass that completes an item leaves the session exact. */
  ghost predicate ExactWhenDone(v: Names, n: nat) {
    forall j :: 0 <= j < n && v.done(j) ==> v.exact(j + 1)
  }

  lemma {:induction false} TrackTo(v: Names, n: nat, k: nat)
    requires Tracks(v, n) && k <= n && !Spoiled(v, k) && !Refuses(v, k)
    ensures !v.shut(k) && if exists i :: 0 <= i < k && v.stall(i) then v.carry(k) else v.exact(k)
  {
    if k > 0 {
      TrackTo(v, n, k - 1);
      assert Moved(v, k - 1);
    }
  }

  lemma {:induction false} FirstSpoiled(v: Names, n: nat) returns (k: nat)
    requires Spoiled(v, n)
    ensures k < n && !Spoiled(v, k) && Spoiled(v, k + 1)
  {
    if Spoiled(v, n - 1) {
      k := FirstSpoiled(v, n - 1);
    } else {
      k := n - 1;
    }
  }

  /** The first refused pass, or how many passes there are. */
  lemma {:induction false} FirstRefused(v: Names, n: nat) returns (f: nat)
    ensures f <= n && !Refuses(v, f) && (f < n ==> v.refused(f))
  {
    if n > 0 {
      f := FirstRefused(v, n - 1);
      if f == n - 1 && !v.refused(f) {
        f := n;
      }
    } else {
      f := 0;
    }
  }

  lemma {:induction false} StaysShut(v: Names, n: nat, f: nat, k: nat)
    requires Tracks(v, n) && f < k <= n && v.shut(f + 1)
    ensures v.shut(k) && !v.exact(k)
  {
    if k > f + 1 {
      StaysShut(v, n, f, k - 1);
    }
    assert Moved(v, k - 1);
  }

  /** Where the connection stays exact, and where the first refused pass closes it. */
  lemma ShutIffRefused(v: Names, n: nat)
    requires Tracks(v, n) && !Spoiled(v, n)
    ensures v.shut(n) <==> Refuses(v, n)
  {
    var f := FirstRefused(v, n);
    TrackTo(v, n, f);
    if f < n {
      assert Moved(v, f);
      StaysShut(v, n, f, n);
    }
  }

  lemma SpoiledIsInexact(v: Names, n: nat, f: nat)
    requires Tracks(v, n) && f <= n && !Refuses(v, f) && Spoiled(v, f)
    ensures !ExactWhenDone(v, n)
  {
    var k := FirstSpoiled(v, f);
    TrackTo(v, n, k);
    assert Moved(v, k);
    assert v.done(k) && !v.exact(k + 1);
  }

  lemma UnspoiledIsExact(v: Names, n: nat, f: nat)
    requires Tracks(v, n) && f <= n && !Refuses(v, f) && !Spoiled(v, f)
    ensures ExactWhenDone(v, f)
  {
    forall j | 0 <= j < f && v.done(j) ensures v.exact(j + 1) {
      TrackTo(v, n, j);
      assert Moved(v, j);
    }
  }

  lemma ExactIffUnspoiled(v: Names, n: nat)
    requires Tracks(v, n)
    ensures ExactWhenDone(v, n) <==> !Spoiled(v, n) && !CutOff(v, n)
  {
    var f := FirstRefused(v, n);
    if Spoiled(v, f) {
      SpoiledIsInexact(v, n, f);
    } else {
      UnspoiledIsExact(v, n, f);
      TrackTo(v, n, f);
      forall j | f <= j < n && v.done(j) ensures CutOff(v, n) && !v.exact(j + 1) {
        assert Moved(v, f);
        StaysShut(v, n, f, j + 1);
      }
    }
  }

  /** `got(k)` bytes were received in the first `k` passes, and `at(k)` is the session after them. */
  ghost predicate Goes<R(!new)>(
      next: string -> Step<R>, all: string, chunks: seq<string>, got: nat -> nat, at: nat -> Session<R>) {
    && got(0) == 0 && at(0) == Session([], Open(Conn([], 0)))
    && forall k {:trigger chunks[k]} :: 0 <= k < |chunks| ==>
         GoesOn(next, all, chunks[k], got(k), got(k + 1), at(k), at(k + 1))
  }

  ghost predicate GoesOn<R(!new)>(
      next: string -> Step<R>, all: string, chunk: string, n: nat, n': nat, s: Session<R>, s': Session<R>) {
    && n <= n' <= |all| && all[n..n'] == chunk
    && s' == if s.link.Open? then Advance(s, Pass(next, s.link.conn, chunk)) else s
  }

  /** A pass finds no bytes retained, and its chunk begins with a separator and completes no item. */
  ghost predicate Stalls<R>(pad: char, items: seq<Item<R>>, chunk: string, n: nat, n': nat) {
    var ws := Wires(items);
    chunk != [] && chunk[0] == pad && Strip(pad, Tail(ws, n)) == [] && Whole(ws, n') == Whole(ws, n)
  }

  /** A pass completes an item. */
  ghost predicate Completes<R>(items: seq<Item<R>>, n: nat, n': nat) {
    Whole(Wires(items), n) < Whole(Wires(items), n')
  }

  /** Separators are being carried, from the first byte of the buffer on. */
  ghost predicate IsCarrying<R>(pad: char, items: seq<Item<R>>, n: nat, s: Session<R>) {
    s.link.Open? && |s.link.conn.buffer| <= n && Carrying(pad, items, n - |s.link.conn.buffer|, n, s)
  }

  lemma FirstOfSlice(all: string, n: nat, n': nat, chunk: string)
    requires n <= n' <= |all| && all[n..n'] == chunk
    ensures chunk != [] <==> n < n'
    ensures chunk != [] ==> chunk[0] == all[n]
  {
  }

  lemma WholeGrows(ws: seq<string>, n: nat, n': nat)
    requires n <= n'
    ensures Whole(ws, n) <= Whole(ws, n')
  {
    ResumeCount(ws, n, n');
  }

  lemma StepFromExact<R(!new)>(
      next: string -> Step<R>, pad: char, items: seq<Item<R>>, chunk: string, n: nat, n': nat,
      s: Session<R>, s': Session<R>)
    requires LexPadded(next, pad, items) && GoesOn(next, Stream(items), chunk, n, n', s, s')
    requires !RefusedAt(items, n') && Exact(pad, items, n, s)
    ensures if Stalls(pad, items, chunk, n, n') then IsCarrying(pad, items, n', s') else Exact(pad, items, n', s')
  {
    hide Scan, Strip, LexPadded;
    PassFromExact(next, pad, items, n, n', s);
    FirstOfSlice(Stream(items), n, n', chunk);
  }

  lemma StepFromCarrying<R(!new)>(
      next: string -> Step<R>, pad: char, items: seq<Item<R>>, chunk: string, n: nat, n': nat,
      s: Session<R>, s': Session<R>)
    requires LexPadded(next, pad, items) && GoesOn(next, Stream(items), chunk, n, n', s, s')
    requires !RefusedAt(items, n') && IsCarrying(pad, items, n, s)
    ensures if Completes(items, n, n') then !Exact(pad, items, n', s') else IsCarrying(pad, items, n', s')
  {
    hide Scan, Strip, LexPadded;
    WholeGrows(Wires(items), n, n');
    PassFromCarrying(next, pad, items, n - |s.link.conn.buffer|, n, n', s);
  }

  lemma StepRefused<R(!new)>(
      next: string -> Step<R>, pad: char, items: seq<Item<R>>, chunk: string, n: nat, n': nat,
      s: Session<R>, s': Session<R>)
    requires LexPadded(next, pad, items) && GoesOn(next, Stream(items), chunk, n, n', s, s')
    requires RefusedAt(items, n') && (Exact(pad, items, n, s) || IsCarrying(pad, items, n, s))
    ensures s' == Session(s.reqs, Shut)
  {
    hide Scan, Strip, LexPadded;
    var n0: nat := if |s.link.conn.buffer| <= n then n - |s.link.conn.buffer| else 0;
    PassRefused(next, pad, items, n0, n, n', s);
  }

  /** Whether the session is exact after `k` passes. */
  ghost function ExactAfter<R>(pad: char, items: seq<Item<R>>, got: nat -> nat, at: nat -> Session<R>): nat -> bool {
    (k: nat) => Exact(pad, items, got(k), at(k))
  }

  ghost function CarryingAfter<R>(
      pad: char, items: seq<Item<R>>, got: nat -> nat, at: nat -> Session<R>): nat -> bool {
    (k: nat) => IsCarrying(pad, items, got(k), at(k))
  }

  ghost function ShutAfter<R>(at: nat -> Session<R>): nat -> bool {
    (k: nat) => at(k).link.Shut?
  }

  /** Pass `k` stalls on a separator. */
  ghost predicate StallsIn<R>(pad: char, items: seq<Item<R>>, chunks: seq<string>, got: nat -> nat, k: nat) {
    k < |chunks| && Stalls(pad, items, chunks[k], got(k), got(k + 1))
  }

  /** Pass `k` completes an item. */
  ghost predicate CompletesIn<R>(items: seq<Item<R>>, got: nat -> nat, k: nat) {
    Completes(items, got(k), got(k + 1))
  }

  /** Pass `k` ends at a refused cut. */
  ghost predicate RefusedIn<R>(items: seq<Item<R>>, got: nat -> nat, k: nat) {
    RefusedAt(items, got(k + 1))
  }

  ghost function StallsAt<R>(pad: char, items: seq<Item<R>>, chunks: seq<string>, got: nat -> nat): nat -> bool {
    (k: nat) => StallsIn(pad, items, chunks, got, k)
  }

  ghost function CompletesAt<R>(items: seq<Item<R>>, got: nat -> nat): nat -> bool {
    (k: nat) => CompletesIn(items, got, k)
  }

  ghost function RefusesAt<R>(items: seq<Item<R>>, got: nat -> nat): nat -> bool {
    (k: nat) => RefusedIn(items, got, k)
  }

  /** The names' meanings, for `chunks` received as `got` and served as `at`. */
  ghost function NamesOf<R>(
      pad: char, items: seq<Item<R>>, chunks: seq<string>, got: nat -> nat, at: nat -> Session<R>): Names
  {
    Names(ExactAfter(pad, items, got, at), CarryingAfter(pad, items, got, at), ShutAfter(at),
          StallsAt(pad, items, chunks, got), CompletesAt(items, got), RefusesAt(items, got))
  }

  lemma PassTracks<R(!new)>(
      next: string -> Step<R>, pad: char, items: seq<Item<R>>, chunk: string, n: nat, n': nat,
      s: Session<R>, s': Session<R>)
    requires LexPadded(next, pad, items) && GoesOn(next, Stream(items), chunk, n, n', s, s')
    ensures Moves(Exact(pad, items, n, s), IsCarrying(pad, items, n, s), s.link.Shut?,
                  Stalls(pad, items, chunk, n, n'), Completes(items, n, n'), RefusedAt(items, n'),
                  Exact(pad, items, n', s'), IsCarrying(pad, items, n', s'), s'.link.Shut?)
  {
    hide Strip, LexPadded, RefusedAt, Carrying, Advance, Pass;
    if Exact(pad, items, n, s) || IsCarrying(pad, items, n, s) {
      if RefusedAt(items, n') {
        StepRefused(next, pad, items, chunk, n, n', s, s');
      } else {
        if Exact(pad, items, n, s) {
          StepFromExact(next, pad, items, chunk, n, n', s, s');
        }
        if IsCarrying(pad, items, n, s) {
          StepFromCarrying(next, pad, items, chunk, n, n', s, s');
        }
      }
    }
  }

  lemma StartsExact<R(!new)>(next: string -> Step<R>, pad: char, items: seq<Item<R>>)
    requires LexPadded(next, pad, items)
    ensures Exact(pad, items, 0, Session([], Open(Conn([], 0))))
  {
    var ws := Wires(items);
    hide Scan;
    assert ws != [] ==> Scans(next, Stripper(pad), items[0]) && ws[0] != [];
    LeadingIs(pad, [], 0);
  }

  lemma NamesOfState<R>(
      pad: char, items: seq<Item<R>>, chunks: seq<string>, got: nat -> nat, at: nat -> Session<R>, k: nat)
    ensures var v := NamesOf(pad, items, chunks, got, at);
      && v.exact(k) == Exact(pad, items, got(k), at(k)) && v.carry(k) == IsCarrying(pad, items, got(k), at(k))
      && v.shut(k) == at(k).link.Shut?
  {
    hide Exact, IsCarrying, StallsAt, CompletesAt, RefusesAt;
  }

  lemma NamesOfPass<R>(
      pad: char, items: seq<Item<R>>, chunks: seq<string>, got: nat -> nat, at: nat -> Session<R>, k: nat)
    ensures var v := NamesOf(pad, items, chunks, got, at);
      && v.stall(k) == StallsIn(pad, items, chunks, got, k)
      && v.done(k) == CompletesIn(items, got, k) && v.refused(k) == RefusedIn(items, got, k)
  {
    hide ExactAfter, CarryingAfter, ShutAfter, StallsIn, CompletesIn, RefusedIn;
  }

  lemma PassMoves<R(!new)>(
      next: string -> Step<R>, pad: char, items: seq<Item<R>>, chunks: seq<string>,
      got: nat -> nat, at: nat -> Session<R>, k: nat)
    requires LexPadded(next, pad, items) && k < |chunks|
    requires GoesOn(next, Stream(items), chunks[k], got(k), got(k + 1), at(k), at(k + 1))
    ensures Moved(NamesOf(pad, items, chunks, got, at), k)
  {
    hide LexPadded, Exact, IsCarrying, Stalls, Completes, RefusedAt, GoesOn, Moves, Stream, NamesOf;
    PassTracks(next, pad, items, chunks[k], got(k), got(k + 1), at(k), at(k + 1));
    NamesOfState(pad, items, chunks, got, at, k);
    NamesOfPass(pad, items, chunks, got, at, k);
    NamesOfState(pad, items, chunks, got, at, k + 1);
  }

  lemma SessionTracks<R(!new)>(
      next: string -> Step<R>, pad: char, items: seq<Item<R>>, chunks: seq<string>,
      got: nat -> nat, at: nat -> Session<R>)
    requires LexPadded(next, pad, items) && Goes(next, Stream(items), chunks, got, at)
    ensures Tracks(NamesOf(pad, items, chunks, got, at), |chunks|)
  {
    hide LexPadded, Exact, IsCarrying, GoesOn, Moved, Stream, NamesOf;
    StartsExact(next, pad, items);
    NamesOfState(pad, items, chunks, got, at, 0);
    var v := NamesOf(pad, items, chunks, got, at);
    forall k: nat | k < |chunks| ensures Moved(v, k) {
      PassMoves(next, pad, items, chunks, got, at, k);
    }
  }

  // ---------- The server's sessions ----------

  lemma JoinedGrows(chunks: seq<string>, k: nat)
    requires k < |chunks|
    ensures Joined(chunks[..k + 1]) == Joined(chunks[..k]) + chunks[k]
  {
    assert chunks[..k + 1][..k] == chunks[..k];
  }

  lemma {:induction false} JoinedPrefix(chunks: seq<string>, all: string, k: nat)
    requires Joined(chunks) <= all && k <= |chunks|
    ensures Joined(chunks[..k]) <= all
  {
    if k == |chunks| {
      assert chunks[..k] == chunks;
    } else {
      var last := |chunks| - 1;
      PrefixOfPrefix(Joined(chunks[..last]), chunks[last], all);
      JoinedPrefix(chunks[..last], all, k);
      assert chunks[..last][..k] == chunks[..k];
    }
  }

  lemma SliceFollows(before: string, chunk: string, after: string, all: string)
    requires after == before + chunk && after <= all
    ensures |before| <= |after| <= |all| && all[|before|..|after|] == chunk
  {
    assert all[..|after|] == after;
  }

  /** The first `k` chunks, or all of them. */
  function First(chunks: seq<string>, k: nat): seq<string> {
    if k <= |chunks| then chunks[..k] else chunks
  }

  /** How many bytes the first `k` passes brought. */
  function Received(chunks: seq<string>): nat -> nat {
    (k: nat) => |Joined(First(chunks, k))|
  }

  /** The session after the first `k` passes. */
  function Served<R>(next: string -> Step<R>, chunks: seq<string>): nat -> Session<R> {
    (k: nat) => Serve(next, First(chunks, k))
  }

  lemma ReceivedGrows(chunks: seq<string>, all: string, k: nat)
    requires Joined(chunks) <= all && k < |chunks|
    ensures var n, n' := |Joined(First(chunks, k))|, |Joined(First(chunks, k + 1))|;
      n <= n' <= |all| && all[n..n'] == chunks[k]
  {
    JoinedPrefix(chunks, all, k + 1);
    JoinedGrows(chunks, k);
    SliceFollows(Joined(chunks[..k]), chunks[k], Joined(chunks[..k + 1]), all);
  }

  lemma ServedGrows<R>(next: string -> Step<R>, chunks: seq<string>, k: nat)
    requires k < |chunks|
    ensures var s := Serve(next, First(chunks, k));
      Serve(next, First(chunks, k + 1)) == if s.link.Open? then Advance(s, Pass(next, s.link.conn, chunks[k])) else s
  {
    assert chunks[..k + 1][..k] == chunks[..k];
  }

  lemma ServeGoesOn<R(!new)>(next: string -> Step<R>, all: string, chunks: seq<string>, k: nat)
    requires Joined(chunks) <= all && k < |chunks|
    ensures GoesOn(next, all, chunks[k], |Joined(First(chunks, k))|, |Joined(First(chunks, k + 1))|,
                   Serve(next, First(chunks, k)), Serve(next, First(chunks, k + 1)))
  {
    ReceivedGrows(chunks, all, k);
    ServedGrows(next, chunks, k);
  }

  lemma ServeGoes<R(!new)>(next: string -> Step<R>, all: string, chunks: seq<string>)
    requires Joined(chunks) <= all
    ensures Goes(next, all, chunks, Received(chunks), Served(next, chunks))
  {
    var got, at := Received(chunks), Served(next, chunks);
    assert First(chunks, 0) == [];
    forall k {:trigger chunks[k]} | 0 <= k < |chunks|
      ensures GoesOn(next, all, chunks[k], got(k), got(k + 1), at(k), at(k + 1))
    {
      ServeGoesOn(next, all, chunks, k);
    }
  }

  /** The names for the passes of a session that is served `chunks`. */
  ghost function NamesFor<R>(next: string -> Step<R>, pad: char, items: seq<Item<R>>, chunks: seq<string>): Names {
    NamesOf(pad, items, chunks, Received(chunks), Served(next, chunks))
  }

  /**
    Every pass that completes an item hands over exactly the items whole by then and keeps exactly the
    bytes of the cut one, if and only if no pass that stalls on a separator is followed by one that
    completes an item, and no pass that ends at a refused cut completes one or is followed by one that does.
    Unless a stalled pass is so followed, the connection ends up closed exactly when a pass ended at a refused cut.
   */
  lemma SessionExactIff<R(!new)>(next: string -> Step<R>, pad: char, items: seq<Item<R>>, chunks: seq<string>)
    requires LexPadded(next, pad, items) && Joined(chunks) <= Stream(items)
    ensures var v, n := NamesFor(next, pad, items, chunks), |chunks|;
      && (ExactWhenDone(v, n) <==> !Spoiled(v, n) && !CutOff(v, n))
      && (!Spoiled(v, n) ==> (Serve(next, chunks).link.Shut? <==> Refuses(v, n)))
  {
    var v := NamesFor(next, pad, items, chunks);
    hide LexPadded, Goes, Tracks, Spoiled, CutOff, Refuses, ExactWhenDone, NamesOf, Exact, IsCarrying;
    ServeGoes(next, Stream(items), chunks);
    SessionTracks(next, pad, items, chunks, Received(chunks), Served(next, chunks));
    ExactIffUnspoiled(v, |chunks|);
    assert First(chunks, |chunks|) == chunks;
    NamesOfState(pad, items, chunks, Received(chunks), Served(next, chunks), |chunks|);
    if !Spoiled(v, |chunks|) {
      ShutIffRefused(v, |chunks|);
    }
  }

  lemma HandedOver<R>(pad: char, items: seq<Item<R>>, n: nat, s: Session<R>)
    requires Exact(pad, items, n, s) || IsCarrying(pad, items, n, s)
    ensures s.reqs == Requests(items[..Whole(Wires(items), n)])
  {
    hide Strip;
  }

  lemma ShutByPass<R(!new)>(next: string -> Step<R>, pad: char, items: seq<Item<R>>, chunks: seq<string>, f: nat)
    requires LexPadded(next, pad, items) && Joined(chunks) <= Stream(items) && f < |chunks|
    requires var v := NamesFor(next, pad, items, chunks); v.refused(f) && !Refuses(v, f) && !Spoiled(v, f)
    ensures Served(next, chunks)(f + 1) == Session(Requests(items[..Whole(Wires(items), Received(chunks)(f))]), Shut)
  {
    hide LexPadded, Exact, IsCarrying, RefusedAt, Spoiled, Refuses, Tracks, GoesOn, NamesOf, Stream, Received, Served;
    var v, got, at := NamesFor(next, pad, items, chunks), Received(chunks), Served(next, chunks);
    ServeGoes(next, Stream(items), chunks);
    assert GoesOn(next, Stream(items), chunks[f], got(f), got(f + 1), at(f), at(f + 1));
    SessionTracks(next, pad, items, chunks, got, at);
    TrackTo(v, |chunks|, f);
    NamesOfState(pad, items, chunks, got, at, f);
    NamesOfPass(pad, items, chunks, got, at, f);
    StepRefused(next, pad, items, chunks[f], got(f), got(f + 1), at(f), at(f + 1));
    HandedOver(pad, items, got(f), at(f));
  }

  lemma {:induction false} StaysAsShut<R>(next: string -> Step<R>, chunks: seq<string>, f: nat, k: nat)
    requires f < k <= |chunks| && Served(next, chunks)(f + 1).link.Shut?
    ensures Served(next, chunks)(k) == Served(next, chunks)(f + 1)
  {
    hide Serve;
    if k > f + 1 {
      StaysAsShut(next, chunks, f, k - 1);
      ServedGrows(next, chunks, k - 1);
    }
  }

  /**
    The first pass that ends at a refused cut, if no stalled pass before it was followed by one that completes
    an item, closes the connection: the items whole before that pass were handed over, and nothing is since.
   */
  lemma SessionShut<R(!new)>(
      next: string -> Step<R>, pad: char, items: seq<Item<R>>, chunks: seq<string>, f: nat, k: nat)
    requires LexPadded(next, pad, items) && Joined(chunks) <= Stream(items) && f < k <= |chunks|
    requires var v := NamesFor(next, pad, items, chunks); v.refused(f) && !Refuses(v, f) && !Spoiled(v, f)
    ensures Serve(next, chunks[..k])
         == Session(Requests(items[..Whole(Wires(items), |Joined(chunks[..f])|)]), Shut)
  {
    hide LexPadded, NamesFor, Serve, Joined, Spoiled, Refuses, Stream;
    ShutByPass(next, pad, items, chunks, f);
    StaysAsShut(next, chunks, f, k);
  }
}

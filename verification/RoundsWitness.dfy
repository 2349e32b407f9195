/** A GET answered with the value a later SET of the same round wrote. */
module RoundsWitness {
  import opened Common
  import opened EntryPool
  import opened StoreModel
  import opened StoreMemory
  import opened StoreWitness
  import opened Rounds
  import T = Transactions

  function OneShard(size: nat): (sv: Server)
    requires 2 <= size
    ensures Ready(sv)
  {
    Server([Mem(Initial(size, Doubling), map[], 0)], false)
  }

  /** Set, then read and set again in one round. */
  function SetGetSet(key: CString, v1: CString, v2: CString): seq<Event> {
    [Mine(T.Store(T.Set(key, v1))), Mine(T.Store(T.Get(key))), Mine(T.Store(T.Set(key, v2)))]
  }

  /** The store after the first set holds the key in entry 1, in the first slot of its path. */
  ghost predicate HoldsOne(cfg: Config, m: Mem, size: nat, key: CString, v: CString) {
    && Tied(m) && m.store.size == size && m.store.numEntries == 1
    && m.store.table[ProbePath(cfg.hash(key), size)[0]] == 1
    && m.store.pool.cells[1] == Live(key, v, false)
  }

  lemma FirstSet(cfg: Config, size: nat, key: CString, v: CString)
    requires !cfg.compressionEnabled && 6 <= size
    ensures var r := Perform(cfg, OneShard(size), T.Set(key, v));
      !r.halted && HoldsOne(cfg, r.shards[0], size, key, v)
  {
    var s := Initial(size, Doubling);
    SetAt(cfg, s, key, v, 0);
    var m := Home(cfg, OneShard(size), T.Set(key, v));
    assert Performed(cfg, m, T.Set(key, v)).Some?;
    StepStaysTied(cfg, m, T.Set(key, v));
  }

  lemma GetBorrows(cfg: Config, sv: Server, size: nat, key: CString, v: CString)
    requires Ready(sv) && |sv.shards| == 1 && HoldsOne(cfg, sv.shards[0], size, key, v)
    ensures AnswerTo(cfg, sv, T.Get(key)) == Answer(v, Some(Handle(0, 1, sv.shards[0].heap[1].id)))
    ensures !sv.halted ==> Perform(cfg, sv, T.Get(key)) == sv
  {
    var s := sv.shards[0].store;
    FirstHoldingIs(s.table, s.pool.cells, key, ProbePath(cfg.hash(key), size), 0);
    assert sv.shards[0 := sv.shards[0]] == sv.shards;
  }

  lemma SecondSetFrees(cfg: Config, sv: Server, size: nat, key: CString, v: CString, v2: CString)
    requires !cfg.compressionEnabled && 6 <= size && Ready(sv) && !sv.halted && |sv.shards| == 1
    requires HoldsOne(cfg, sv.shards[0], size, key, v)
    ensures !Perform(cfg, sv, T.Set(key, v2)).halted
    ensures FreedBy(cfg, sv, T.Set(key, v2), Handle(0, 1, sv.shards[0].heap[1].id))
  {
    var s := sv.shards[0].store;
    FirstOpenIs(s.table, s.pool.cells, key, ProbePath(cfg.hash(key), size), 0);
  }

  lemma OneMore(cfg: Config, sv: Server, events: seq<Event>, q: T.Command)
    requires Ready(sv)
    ensures After(cfg, sv, events + [Mine(T.Store(q))]) == Perform(cfg, After(cfg, sv, events), q)
  {
    var all := events + [Mine(T.Store(q))];
    assert all[..|all| - 1] == events;
  }

  lemma ThreeEvents(cfg: Config, sv: Server, q: T.Command, g: T.Command, w: T.Command)
    requires Ready(sv)
    ensures var events, s1 := [Mine(T.Store(q)), Mine(T.Store(g)), Mine(T.Store(w))], Perform(cfg, sv, q);
      && AnswerAt(cfg, sv, events, 1) == AnswerTo(cfg, s1, g)
      && After(cfg, sv, events) == Perform(cfg, Perform(cfg, s1, g), w)
  {
    hide Perform, AnswerTo, Ready;
    var one, two := [Mine(T.Store(q))], [Mine(T.Store(q)), Mine(T.Store(g))];
    var events := [Mine(T.Store(q)), Mine(T.Store(g)), Mine(T.Store(w))];
    OneMore(cfg, sv, [], q);
    OneMore(cfg, sv, one, g);
    OneMore(cfg, sv, two, w);
    assert [] + one == one && one + [Mine(T.Store(g))] == two && two + [Mine(T.Store(w))] == events;
    assert events[..1] == one;
  }

  lemma GoneShowsJunk(sv: Server, a: Answer, v: string, junk: nat -> char)
    requires a.buffer.Some? && Gone(sv, a.buffer.value) && |a.text| == |v|
    requires forall i :: 0 <= i < |v| ==> junk(i) == v[i]
    ensures Shown(sv, a, junk) == v
  {
  }

  lemma FreedInRound(cfg: Config, s1: Server, size: nat, key: CString, v1: CString, v2: CString)
    requires !cfg.compressionEnabled && 6 <= size && Ready(s1) && !s1.halted && |s1.shards| == 1
    requires HoldsOne(cfg, s1.shards[0], size, key, v1)
    ensures var a, sent := AnswerTo(cfg, s1, T.Get(key)), Perform(cfg, Perform(cfg, s1, T.Get(key)), T.Set(key, v2));
      !sent.halted && a.text == v1 && a.buffer.Some? && Gone(sent, a.buffer.value)
  {
    GetBorrows(cfg, s1, size, key, v1);
    SecondSetFrees(cfg, s1, size, key, v1, v2);
    PerformHolds(cfg, s1, T.Set(key, v2), AnswerTo(cfg, s1, T.Get(key)).buffer.value, key, v1);
  }

  /**
    The response to the GET was made to say v1; sent at the end of the round it says whatever the freed
    buffer holds, and so v2 if the allocator gave the buffer to the new value.
   */
  lemma GetAnswersLaterSet(cfg: Config, size: nat, key: CString, v1: CString, v2: CString, junk: nat -> char)
    requires !cfg.compressionEnabled && 6 <= size && |v1| == |v2|
    requires forall i :: 0 <= i < |v2| ==> junk(i) == v2[i]
    ensures var sv, events := OneShard(size), SetGetSet(key, v1, v2);
      var a, sent := AnswerAt(cfg, sv, events, 1), After(cfg, sv, events);
      !sent.halted && a.text == v1 && Shown(sent, a, junk) == v2
  {
    var sv, events := OneShard(size), SetGetSet(key, v1, v2);
    ThreeEvents(cfg, sv, T.Set(key, v1), T.Get(key), T.Set(key, v2));
    FirstSet(cfg, size, key, v1);
    FreedInRound(cfg, Perform(cfg, sv, T.Set(key, v1)), size, key, v1, v2);
    GoneShowsJunk(After(cfg, sv, events), AnswerAt(cfg, sv, events, 1), v2, junk);
  }

  /** Another connection sets the key, then this one reads it. */
  function SetElsewhereThenGet(key: CString, v: CString): seq<Event> {
    [Elsewhere(T.Set(key, v)), Mine(T.Store(T.Get(key)))]
  }

  /** A value set over RESP, a separator in it or not, is what a custom GET answers with. */
  lemma AnyValueIsAnswered(cfg: Config, size: nat, key: CString, v: CString)
    requires !cfg.compressionEnabled && 6 <= size
    ensures OwnTexts(cfg, OneShard(size), SetElsewhereThenGet(key, v)) == [v]
  {
    var sv, events := OneShard(size), SetElsewhereThenGet(key, v);
    FirstSet(cfg, size, key, v);
    var s1 := Perform(cfg, sv, T.Set(key, v));
    assert events[..0] == [] && After(cfg, sv, events[..0]) == sv;
    AfterGrows(cfg, sv, events, 0);
    GetBorrows(cfg, s1, size, key, v);
    assert AnswerAt(cfg, sv, events, 1).text == v;
    assert events[..1][..0] == [] && MineIn(events[..1]) == [];
    assert MineIn(events) == [1];
  }
}

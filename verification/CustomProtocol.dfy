/** The custom protocol: what the client writes and what the server makes of it. */
module CustomProtocol {
  import opened Common
  import opened RespCommand
  import opened Cuts
  import opened Streams
  import opened Framing
  import T = Transactions

  const SPACE := ' '

  /** The position of the first space, or the length. */
  function FirstSpace(s: string): (n: nat)
    ensures n <= |s| && (n < |s| ==> s[n] == SPACE) && SPACE !in s[..n]
  {
    if s == [] || s[0] == SPACE then 0
    else
      var n := 1 + FirstSpace(s[1..]);
      assert s[..n] == [s[0]] + s[1..][..n - 1];
      n
  }

  /** What a custom request asks for. */
  function Meaning(payload: string): T.Request {
    var n := FirstSpace(payload);
    if n == |payload| then T.Wrong("ERROR: Unable to parse request")
    else Applied(payload[..n], payload[n + 1..])
  }

  function Applied(command: string, remainder: string): T.Request {
    if remainder == [] then T.Wrong("ERROR: Invalid command format")
    else
      var m := FirstSpace(remainder);
      var key := UpToNul(remainder[..m]);
      Dispatched(command, key, if m < |remainder| then Some(UpToNul(remainder[m + 1..])) else None)
  }

  function Dispatched(command: string, key: CString, value: Option<CString>): T.Request {
    if command == "GET" then T.Store(T.Get(key))
    else if command == "SET" then
      if value.None? then T.Wrong("ERROR: Invalid command format") else T.Store(T.Set(key, value.value))
    else if command == "DEL" then T.Store(T.Del(key))
    else T.Wrong("ERROR: Unknown command")
  }

  // ---------- What the client writes ----------

  function Name(q: T.Command): string {
    match q
    case Get(_) => "GET"
    case Set(_, _) => "SET"
    case Del(_) => "DEL"
  }

  function Arguments(q: T.Command): string {
    match q
    case Set(key, value) => key + [SPACE] + value
    case _ => q.key
  }

  function Payload(q: T.Command): string {
    Name(q) + [SPACE] + Arguments(q)
  }

  /** The requests the client sends rather than throws at. */
  predicate Accepted(q: T.Command) {
    && q.key != [] && SPACE !in q.key && MSG_SEPARATOR !in q.key
    && (q.Set? ==> MSG_SEPARATOR !in q.value)
  }

  // ---------- The server reads what the client wrote ----------

  lemma SpaceAt(a: string, b: string)
    requires SPACE !in a
    ensures FirstSpace(a + [SPACE] + b) == |a|
    ensures FirstSpace(a) == |a|
  {
    var s, n := a + [SPACE] + b, FirstSpace(a + [SPACE] + b);
    assert s[|a|] == SPACE;
    assert forall i :: 0 <= i < |a| ==> s[i] == a[i] && a[i] in a;
    assert forall i :: 0 <= i < n ==> s[i] == s[..n][i] && s[..n][i] in s[..n];
  }

  lemma {:induction false} NoNul(s: CString)
    ensures UpToNul(s) == s
  {
    if |UpToNul(s)| < |s| {
      assert s[|UpToNul(s)|] == '\0';
    }
  }

  lemma MeaningOfPayload(q: T.Command)
    ensures Meaning(Payload(q)) == Applied(Name(q), Arguments(q))
  {
    var p := Payload(q);
    SpaceAt(Name(q), Arguments(q));
    assert p[..|Name(q)|] == Name(q) && p[|Name(q)| + 1..] == Arguments(q);
  }

  lemma ArgumentsUnderstood(q: T.Command)
    requires SPACE !in q.key && Arguments(q) != []
    ensures Applied(Name(q), Arguments(q)) == Dispatched(Name(q), q.key, if q.Set? then Some(q.value) else None)
  {
    var a := Arguments(q);
    NoNul(q.key);
    if q.Set? {
      SpaceAt(q.key, q.value);
      NoNul(q.value);
      assert a[..|q.key|] == q.key && a[|q.key| + 1..] == q.value;
    } else {
      SpaceAt(q.key, []);
      assert a[..|a|] == q.key;
    }
  }

  lemma KeyReadHasNoSpace(command: string, remainder: string)
    requires Applied(command, remainder).Store?
    ensures SPACE !in Applied(command, remainder).command.key
  {
    var before := remainder[..FirstSpace(remainder)];
    assert UpToNul(before) == before[..|UpToNul(before)|];
  }

  /**
    The server understands a client's command as it was meant, whatever spaces its value holds, exactly when
    its key holds no space and, unless it is a SET, is not empty.
   */
  lemma UnderstoodIff(q: T.Command)
    ensures Meaning(Payload(q)) == T.Store(q) <==> SPACE !in q.key && (q.key != [] || q.Set?)
  {
    MeaningOfPayload(q);
    if SPACE !in q.key {
      if Arguments(q) != [] {
        ArgumentsUnderstood(q);
      }
    } else if Applied(Name(q), Arguments(q)).Store? {
      KeyReadHasNoSpace(Name(q), Arguments(q));
    }
  }

  // ---------- Any payload at all ----------

  /** `word` is the text up to its first NUL. */
  predicate CutAtNul(text: string, word: CString) {
    word <= text && (|word| == |text| || text[|word|] == '\0')
  }

  /** The first `m` characters of `r` are the ones before its first space; without a space they are all of it. */
  predicate BeforeSpace(r: string, m: nat) {
    m <= |r| && (forall i :: 0 <= i < m ==> r[i] != ' ') && (m < |r| ==> r[m] == ' ')
  }

  /** The payload spells the command: its name and a space, and behind them the key and, for a SET, a value. */
  ghost predicate Spells(p: string, q: T.Command) {
    && |p| > 4
    && exists m: nat :: BeforeSpace(p[4..], m) && CutAtNul(p[4..][..m], q.key)
         && match q
            case Get(_) => p[..4] == "GET "
            case Del(_) => p[..4] == "DEL "
            case Set(_, value) => p[..4] == "SET " && m < |p| - 4 && CutAtNul(p[4..][m + 1..], value)
  }

  lemma CutIsUnique(text: string, word: CString)
    ensures CutAtNul(text, word) <==> word == UpToNul(text)
  {
    var u := UpToNul(text);
    assert forall i :: 0 <= i < |u| ==> text[i] == u[i] && u[i] in u;
    assert forall i :: 0 <= i < |word| ==> word[i] in word;
    assert word <= text ==> forall i :: 0 <= i < |word| ==> text[i] == word[i];
  }

  lemma FirstSpaceIs(r: string, m: nat)
    ensures BeforeSpace(r, m) <==> m == FirstSpace(r)
  {
    var n := FirstSpace(r);
    assert forall i :: 0 <= i < n ==> r[..n][i] in r[..n];
  }

  /** The text before the first space is a name of three letters exactly when the first four characters say so. */
  lemma NameIs(p: string, name: string, named: string)
    requires |name| == 3 && SPACE !in name && named == name + " "
    ensures FirstSpace(p) < |p| && p[..FirstSpace(p)] == name <==> |p| >= 4 && p[..4] == named
  {
    var n := FirstSpace(p);
    if |p| >= 4 && p[..4] == named {
      assert p[..3] == p[..4][..3] == name && p[3] == p[..4][3] == ' ';
      forall i | 0 <= i < 3 ensures p[i] != ' ' {
        assert p[i] == name[i] && name[i] in name;
      }
      FirstSpaceIs(p, 3);
    }
    if n == 3 && n < |p| {
      assert p[..4] == p[..3] + [p[3]];
    }
  }

  lemma NamesAre(p: string)
    ensures var n := FirstSpace(p);
      && (n < |p| && p[..n] == "GET" <==> |p| >= 4 && p[..4] == "GET ")
      && (n < |p| && p[..n] == "SET" <==> |p| >= 4 && p[..4] == "SET ")
      && (n < |p| && p[..n] == "DEL" <==> |p| >= 4 && p[..4] == "DEL ")
      && (|p| >= 4 && (p[..4] == "GET " || p[..4] == "SET " || p[..4] == "DEL ") ==> n == 3)
  {
    hide FirstSpace;
    NameIs(p, "GET", "GET ");
    NameIs(p, "SET", "SET ");
    NameIs(p, "DEL", "DEL ");
  }

  lemma SpellsIs(p: string, q: T.Command)
    requires |p| > 4
    ensures var m := FirstSpace(p[4..]);
      Spells(p, q) <==>
      && q.key == UpToNul(p[4..][..m])
      && match q
         case Get(_) => p[..4] == "GET "
         case Del(_) => p[..4] == "DEL "
         case Set(_, value) => p[..4] == "SET " && m < |p| - 4 && value == UpToNul(p[4..][m + 1..])
  {
    hide FirstSpace, UpToNul, BeforeSpace, CutAtNul;
    var r := p[4..];
    var m := FirstSpace(r);
    forall k: nat ensures BeforeSpace(r, k) <==> k == m {
      FirstSpaceIs(r, k);
    }
    CutIsUnique(r[..m], q.key);
    if q.Set? && m < |r| {
      CutIsUnique(r[m + 1..], q.value);
    }
  }

  /**
    What any payload means: a command exactly when it spells it, whatever bytes its key and value hold before
    their first NUL.
   */
  lemma MeaningIff(p: string, q: T.Command)
    ensures Meaning(p) == T.Store(q) <==> Spells(p, q)
  {
    hide FirstSpace, UpToNul, Spells;
    NamesAre(p);
    if |p| > 4 {
      SpellsIs(p, q);
    } else {
      ShortSpellsNothing(p, q);
    }
  }

  lemma ShortSpellsNothing(p: string, q: T.Command)
    requires |p| <= 4
    ensures !Spells(p, q)
  {
  }

  /** And any other payload is refused, each kind with its own message. */
  lemma MeaningWrong(p: string)
    ensures Meaning(p) == T.Wrong("ERROR: Unable to parse request") <==> ' ' !in p
    ensures Meaning(p) == T.Wrong("ERROR: Invalid command format") <==>
      ' ' in p && (' ' !in p[..|p| - 1] || (|p| > 4 && p[..4] == "SET " && ' ' !in p[4..]))
    ensures Meaning(p) == T.Wrong("ERROR: Unknown command") <==>
      && ' ' in p && ' ' in p[..|p| - 1]
      && !(|p| >= 4 && (p[..4] == "GET " || p[..4] == "SET " || p[..4] == "DEL "))
    ensures Meaning(p).Store? || Meaning(p) == T.Wrong("ERROR: Unable to parse request")
         || Meaning(p) == T.Wrong("ERROR: Invalid command format") || Meaning(p) == T.Wrong("ERROR: Unknown command")
  {
    hide FirstSpace, UpToNul;
    NamesAre(p);
    WhereSpaces(p);
    if |p| > 4 {
      WhereSpaces(p[4..]);
    }
    MessagesDiffer();
  }

  lemma WhereSpaces(p: string)
    ensures FirstSpace(p) < |p| <==> ' ' in p
    ensures |p| > 0 ==> (FirstSpace(p) < |p| - 1 <==> ' ' in p[..|p| - 1])
  {
    hide FirstSpace;
    var n := FirstSpace(p);
    assert n < |p| ==> p[n] == ' ';
    assert forall i :: 0 <= i < n ==> p[i] == p[..n][i] && p[..n][i] in p[..n];
    if 0 < |p| && n < |p| - 1 {
      assert p[..|p| - 1][n] == ' ';
    }
  }

  lemma MessagesDiffer()
    ensures "ERROR: Unable to parse request" != "ERROR: Invalid command format"
    ensures "ERROR: Unable to parse request" != "ERROR: Unknown command"
    ensures "ERROR: Invalid command format" != "ERROR: Unknown command"
  {
    assert |"ERROR: Unable to parse request"| == 30 && |"ERROR: Invalid command format"| == 29;
    assert |"ERROR: Unknown command"| == 22;
  }

  // ---------- Over the wire ----------

  function Messages(qs: seq<T.Command>): (ms: seq<Message>)
    ensures |ms| == |qs| && forall i :: 0 <= i < |qs| ==> ms[i] == CustomMessage(Payload(qs[i]))
  {
    seq(|qs|, i requires 0 <= i < |qs| => CustomMessage(Payload(qs[i])))
  }

  lemma AcceptedIsWellFormed(q: T.Command)
    requires Accepted(q)
    ensures WellFormed(CustomMessage(Payload(q)))
  {
  }

  ghost predicate AllAccepted(qs: seq<T.Command>) {
    forall i :: 0 <= i < |qs| ==> Accepted(qs[i])
  }

  /** The requests, framed, mean the commands. */
  ghost predicate Mean(reqs: seq<Req>, qs: seq<T.Command>) {
    && |reqs| == |qs|
    && forall i :: 0 <= i < |qs| ==> reqs[i].protocol == Custom && Meaning(reqs[i].payload) == T.Store(qs[i])
  }

  /** A custom message is never refused. */
  lemma NeverRefused(qs: seq<T.Command>, chunks: seq<string>)
    ensures !RefusedSomewhere((n: nat) => RefusedAt(ItemsOf(Messages(qs)), n), chunks)
  {
    forall n: nat ensures !RefusedAt(ItemsOf(Messages(qs)), n) {
    }
  }

  lemma RequestsMean(qs: seq<T.Command>, k: nat)
    requires AllAccepted(qs) && k <= |qs|
    ensures Mean(Requests(ItemsOf(Messages(qs))[..k]), qs[..k])
  {
    forall i | 0 <= i < k ensures Meaning(Requests(ItemsOf(Messages(qs))[..k])[i].payload) == T.Store(qs[i]) {
      UnderstoodIff(qs[i]);
    }
  }

  /**
    However the client's bytes are cut into read passes, the connection stays open and the requests framed
    so far mean exactly the commands received whole, in order.
   */
  lemma CommandsArrive(qs: seq<T.Command>, chunks: seq<string>)
    requires AllAccepted(qs) && Joined(chunks) <= Stream(ItemsOf(Messages(qs)))
    ensures var s := Serve(Next, chunks);
      var ws := Wires(ItemsOf(Messages(qs)));
      && s.link == Open(Conn(Tail(ws, |Joined(chunks)|), 0))
      && Mean(s.reqs, qs[..Whole(ws, |Joined(chunks)|)])
      && (Joined(chunks) == Stream(ItemsOf(Messages(qs))) ==> s.link == Open(Conn([], 0)) && Mean(s.reqs, qs))
  {
    hide Serve, Joined, Whole, Tail, Flat, Mean, RefusedSomewhere, RefusedAt, WellFormed;
    var ms := Messages(qs);
    forall i | 0 <= i < |ms| ensures WellFormed(ms[i]) {
      AcceptedIsWellFormed(qs[i]);
    }
    SessionFramesMessages(ms, chunks);
    NeverRefused(qs, chunks);
    AllWhole(Wires(ItemsOf(ms)));
    assert qs[..|qs|] == qs;
    RequestsMean(qs, Whole(Wires(ItemsOf(ms)), |Joined(chunks)|));
  }

  // ---------- Taking a request apart in place ----------

  method FindSpace(data: array<char>, start: nat, end: nat) returns (pos: nat)
    requires start <= end <= data.Length
    ensures pos == start + FirstSpace(data[start..end])
  {
    pos := start;
    while pos < end && data[pos] != SPACE
      invariant start <= pos <= end
      invariant FirstSpace(data[start..end]) == pos - start + FirstSpace(data[pos..end])
    {
      assert data[pos..end][1..] == data[pos + 1..end];
      pos := pos + 1;
    }
  }

  /** The C string at `at`, behind which a NUL stands at `end`. */
  method ReadCString(data: array<char>, at: nat, end: nat) returns (s: CString)
    requires at <= end < data.Length && data[end] == '\0'
    ensures s == UpToNul(data[at..end])
  {
    s := UpToNul(data[at..]);
    PayloadAsCString(data[at..end], data[end + 1..]);
    assert data[at..] == data[at..end] + ['\0'] + data[end + 1..];
  }

  /** The view is `data[start..end]`, and the framing loop left a NUL at its end. */
  method ParseCustomRequest(data: array<char>, start: nat, end: nat) returns (r: T.Request)
    requires start <= end < data.Length && data[end] == '\0'
    modifies data
    ensures r == Meaning(old(data[start..end]))
    ensures forall i :: 0 <= i < data.Length && data[i] != old(data[i]) ==>
      start < i < end && old(data[i]) == SPACE && data[i] == '\0'
  {
    hide FirstSpace, Applied;
    var firstSpace := FindSpace(data, start, end);
    if firstSpace == end {
      return T.Wrong("ERROR: Unable to parse request");
    }
    var command := data[start..firstSpace];
    assert command == data[start..end][..firstSpace - start];
    assert data[firstSpace + 1..end] == data[start..end][firstSpace - start + 1..];
    r := ParseRemainder(data, command, firstSpace + 1, end);
  }

  /** Ends the key where the space stands and reads the value behind it. */
  method SplitAt(data: array<char>, pos: nat, end: nat) returns (value: CString)
    requires pos < end < data.Length && data[pos] == SPACE && data[end] == '\0'
    modifies data
    ensures data[pos] == '\0' && forall i :: 0 <= i < data.Length && i != pos ==> data[i] == old(data[i])
    ensures value == UpToNul(old(data[pos + 1..end]))
  {
    data[pos] := '\0';
    value := ReadCString(data, pos + 1, end);
    assert data[pos + 1..end] == old(data[pos + 1..end]);
  }

  method ParseRemainder(data: array<char>, command: string, start: nat, end: nat) returns (r: T.Request)
    requires start <= end < data.Length && data[end] == '\0'
    modifies data
    ensures r == Applied(command, old(data[start..end]))
    ensures forall i :: 0 <= i < data.Length && data[i] != old(data[i]) ==>
      start <= i < end && old(data[i]) == SPACE && data[i] == '\0'
  {
    hide FirstSpace, UpToNul, Dispatched;
    if start == end {
      return T.Wrong("ERROR: Invalid command format");
    }
    var pos := FindSpace(data, start, end);
    ghost var m, remainder := pos - start, data[start..end];
    assert remainder[..m] == data[start..pos];
    if pos == end {
      var key := ReadCString(data, start, end);
      r := Dispatched(command, key, None);
    } else {
      assert remainder[m + 1..] == data[pos + 1..end];
      var value := SplitAt(data, pos, end);
      var key := ReadCString(data, start, pos);
      assert data[start..pos] == old(data[start..pos]);
      r := Dispatched(command, key, Some(value));
    }
  }
}

/** Where a cut falls in a run of concatenated byte strings. */
module Cuts {

  function Flat(ws: seq<string>): string {
    if ws == [] then [] else ws[0] + Flat(ws[1..])
  }

  /** How many of the strings the first `n` bytes hold whole. */
  function Whole(ws: seq<string>, n: nat): (k: nat)
    ensures k <= |ws|
  {
    if ws == [] || n < |ws[0]| then 0 else 1 + Whole(ws[1..], n - |ws[0]|)
  }

  /** The bytes of the string the cut falls in. */
  function Tail(ws: seq<string>, n: nat): (p: string)
    ensures |p| <= n
  {
    if ws == [] then []
    else if n < |ws[0]| then ws[0][..n]
    else Tail(ws[1..], n - |ws[0]|)
  }

  /** Counting may stop at `n` and go on from the string the cut fell in. */
  lemma {:induction false} ResumeCount(ws: seq<string>, n: nat, n': nat)
    requires n <= n'
    ensures var k, m := Whole(ws, n), |Tail(ws, n)| + n' - n;
      Whole(ws, n') == k + Whole(ws[k..], m) && Tail(ws, n') == Tail(ws[k..], m)
  {
    if ws == [] {
    } else if n < |ws[0]| {
      assert ws[0..] == ws;
    } else {
      var w, more := |ws[0]|, ws[1..];
      ResumeCount(more, n - w, n' - w);
      var k := Whole(more, n - w);
      assert more[k..] == ws[1 + k..];
      assert Whole(ws, n) == 1 + k && Tail(ws, n) == Tail(more, n - w);
      assert Whole(ws, n') == 1 + Whole(more, n' - w) && Tail(ws, n') == Tail(more, n' - w);
    }
  }

  lemma {:induction false} ResumeBytes(ws: seq<string>, n: nat, n': nat)
    requires n <= n' <= |Flat(ws)|
    ensures var k, p := Whole(ws, n), Tail(ws, n);
      var m := |p| + n' - n;
      m <= |Flat(ws[k..])| && p + Flat(ws)[n..n'] == Flat(ws[k..])[..m]
  {
    if ws == [] {
    } else if n < |ws[0]| {
      assert ws[0..] == ws;
      TailBegins(ws, n);
    } else {
      var w := |ws[0]|;
      ResumeBytes(ws[1..], n - w, n' - w);
      SliceOfConcat(ws[0], Flat(ws[1..]), n, n');
      assert ws[1..][Whole(ws[1..], n - w)..] == ws[Whole(ws, n)..];
    }
  }

  lemma TailBegins(ws: seq<string>, n: nat)
    requires n <= |Flat(ws)| && Whole(ws, n) == 0
    ensures Tail(ws, n) == Flat(ws)[..n]
  {
    if ws != [] {
      assert Flat(ws)[..n] == ws[0][..n];
    }
  }

  lemma {:induction false} TailIsSuffix(ws: seq<string>, n: nat)
    requires n <= |Flat(ws)|
    ensures Flat(ws)[..n][n - |Tail(ws, n)|..] == Tail(ws, n)
  {
    if ws != [] {
      if n < |ws[0]| {
        assert Flat(ws)[..n] == ws[0][..n];
      } else {
        TailIsSuffix(ws[1..], n - |ws[0]|);
        PrefixOfConcat(ws[0], Flat(ws[1..]), n);
      }
    }
  }

  /** All the bytes hold all the strings whole. */
  lemma {:induction false} AllWhole(ws: seq<string>)
    ensures Whole(ws, |Flat(ws)|) == |ws| && Tail(ws, |Flat(ws)|) == []
  {
    if ws != [] {
      AllWhole(ws[1..]);
    }
  }

  lemma SliceOfConcat(a: string, b: string, n: nat, n': nat)
    requires |a| <= n <= n' <= |a| + |b|
    ensures (a + b)[n..n'] == b[n - |a|..n' - |a|]
  {
  }

  lemma PrefixOfConcat(a: string, b: string, n: nat)
    requires |a| <= n <= |a| + |b|
    ensures (a + b)[..n] == a + b[..n - |a|]
  {
  }
}

/**
 Processes that share an open file and write to one ring: each finds room for a
 piece, takes the piece from its user, and copies it in without looking at the
 room again.
 */
module Claims {
  import opened Basics

  // a piece finds room; piece k of those waiting is copied in, with the device ready for so many bytes;
  // or something else happens
  datatype Event<T> = Claim(buf: seq<Byte>) | Finish(k: nat, ready: nat) | Other(what: T)

  // a writer claims only after the one before has copied
  predicate Exclusive<T>(busy: bool, events: seq<Event<T>>)
    decreases |events|
  {
    events == [] ||
    match events[0]
    case Other(_) => Exclusive(busy, events[1..])
    case Claim(_) => !busy && Exclusive(true, events[1..])
    case Finish(k, _) => k == 0 && Exclusive(false, events[1..])
  }

  lemma {:induction false} ExclusiveStep<T>(busy: bool, events: seq<Event<T>>)
    requires events != [] && Exclusive(busy, events)
    ensures events[0].Other? ==> Exclusive(busy, events[1..])
    ensures events[0].Claim? ==> !busy && Exclusive(true, events[1..])
    ensures events[0].Finish? ==> events[0].k == 0 && Exclusive(false, events[1..])
  {
  }

  // the bytes of several pieces
  function Sum(bufs: seq<seq<Byte>>): nat {
    if bufs == [] then 0 else Sum(bufs[..|bufs|-1]) + |bufs[|bufs|-1]|
  }

  function Join(bufs: seq<seq<Byte>>): seq<Byte> {
    if bufs == [] then [] else Join(bufs[..|bufs|-1]) + bufs[|bufs|-1]
  }

  lemma SumNone()
    ensures Sum([]) == 0 && Join([]) == []
  {
  }

  lemma {:induction false} SumLast(bufs: seq<seq<Byte>>, buf: seq<Byte>)
    ensures Sum(bufs + [buf]) == Sum(bufs) + |buf| && Join(bufs + [buf]) == Join(bufs) + buf
  {
    assert (bufs + [buf])[..|bufs|] == bufs;
  }

  lemma {:induction false} SumOne(bufs: seq<seq<Byte>>, n: nat)
    requires forall b | b in bufs :: |b| <= n
    ensures |bufs| <= 1 ==> Sum(bufs) <= n
  {
    if |bufs| == 1 {
      assert bufs[..0] == [];
    }
  }

  lemma SumMore(bufs: seq<seq<Byte>>, i: nat)
    requires i < |bufs|
    ensures Sum(bufs[..i + 1]) == Sum(bufs[..i]) + |bufs[i]| && Join(bufs[..i + 1]) == Join(bufs[..i]) + bufs[i]
  {
    assert bufs[..i + 1] == bufs[..i] + [bufs[i]];
    SumLast(bufs[..i], bufs[i]);
  }

  lemma {:induction false} JoinSplit(bufs: seq<seq<Byte>>, k: nat)
    requires k <= |bufs|
    ensures Join(bufs) == Join(bufs[..k]) + Join(bufs[k..])
    decreases |bufs|
  {
    var n := |bufs| - 1;
    if k == |bufs| {
      assert bufs[..k] == bufs;
    } else {
      JoinSplit(bufs[..n], k);
      assert bufs[..n][..k] == bufs[..k] && bufs[k..][..n - k] == bufs[..n][k..];
    }
  }

  lemma {:induction false} SumDrop(bufs: seq<seq<Byte>>, k: nat)
    requires k < |bufs|
    ensures Sum(bufs) == Sum(bufs[..k] + bufs[k + 1..]) + |bufs[k]|
  {
    var n := |bufs| - 1;
    if k < n {
      SumDrop(bufs[..n], k);
      assert bufs[..n][..k] + bufs[..n][k + 1..] == bufs[..k] + bufs[k + 1..n];
      assert bufs[..k] + bufs[k + 1..] == (bufs[..k] + bufs[k + 1..n]) + [bufs[n]];
      SumLast(bufs[..k] + bufs[k + 1..n], bufs[n]);
    } else {
      assert bufs[..k] + bufs[k + 1..] == bufs[..n];
    }
  }
}

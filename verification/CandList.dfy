/**
 The candidate list of the module core: records that nothing holds and
 nothing depends on, in the order they became so.  The source links them
 through two pointer fields of each record, with a head and a tail pointer.
 A pointer is an address; the records' link fields are a map from the address
 of a live record to its fields, so a link to a freed record is expressible.
 */
module CandList {

  type Ptr = nat

  const NULL: Ptr := 0

  // the candidate part of one record: the DM_CAND flag, m_cnext and m_cprev
  datatype Link = Link(cand: bool, next: Ptr, prev: Ptr)

  predicate Distinct<T(==)>(s: seq<T>) {
    forall i, j | 0 <= i < j < |s| :: s[i] != s[j]
  }

  // s[i], or the null pointer beyond either end
  function At(s: seq<Ptr>, i: int): Ptr {
    if 0 <= i < |s| then s[i] else NULL
  }

  // s with its first x taken out
  function Without<T(==)>(s: seq<T>, x: T): seq<T> {
    if s == [] then [] else if s[0] == x then s[1..] else [s[0]] + Without(s[1..], x)
  }

  lemma {:induction false} WithoutAt<T>(s: seq<T>, x: T, k: nat)
    requires k < |s| && s[k] == x && x !in s[..k]
    ensures Without(s, x) == s[..k] + s[k+1..]
  {
    if k > 0 {
      assert s[0] in s[..k];
      assert s[1..][..k-1] == s[..k][1..];
      WithoutAt(s[1..], x, k - 1);
      assert s[..k] + s[k+1..] == [s[0]] + (s[1..][..k-1] + s[1..][k..]);
    }
  }

  lemma {:induction false} WithoutAbsent<T>(s: seq<T>, x: T)
    requires x !in s
    ensures Without(s, x) == s
  {
    if s != [] {
      WithoutAbsent(s[1..], x);
    }
  }

  // w is cs without its element at index k
  ghost predicate Cut<T>(cs: seq<T>, k: nat, w: seq<T>) {
    && k < |cs| && |w| == |cs| - 1 && (forall i | 0 <= i < k :: w[i] == cs[i])
    && forall i | k <= i < |w| :: w[i] == cs[i+1]
  }

  // the index of an element of a duplicate-free sequence, and what Without leaves
  lemma WithoutDistinct<T>(s: seq<T>, x: T) returns (k: nat)
    requires Distinct(s) && x in s
    ensures k < |s| && s[k] == x && Cut(s, k, Without(s, x))
    ensures Distinct(Without(s, x)) && x !in Without(s, x)
    ensures forall y :: y in Without(s, x) <==> y in s && y != x
  {
    k :| 0 <= k < |s| && s[k] == x;
    WithoutAt(s, x, k);
    var w := s[..k] + s[k+1..];
    forall y | y in s && y != x ensures y in w {
      var j :| 0 <= j < |s| && s[j] == y;
      assert y == w[if j < k then j else j - 1];
    }
  }

  // cs is exactly what the pointers spell out, forwards and backwards
  ghost predicate Linked(links: map<Ptr, Link>, cs: seq<Ptr>, head: Ptr, tail: Ptr) {
    && NULL !in links
    && Distinct(cs)
    && (forall p | p in cs :: p in links)
    && (forall p | p in links :: links[p].cand <==> p in cs)
    && head == At(cs, 0)
    && tail == At(cs, |cs| - 1)
    && (forall i {:trigger links[cs[i]]} | 0 <= i < |cs| :: links[cs[i]].next == At(cs, i + 1))
    && (forall i {:trigger links[cs[i]]} | 0 <= i < |cs| :: links[cs[i]].prev == At(cs, i - 1))
  }

  // The pointers leave no choice: walking them from the head meets the same record at every step.
  lemma {:induction false} LinkedAt(links: map<Ptr, Link>, cs: seq<Ptr>, ds: seq<Ptr>, head: Ptr, tail: Ptr, i: nat)
    requires Linked(links, cs, head, tail) && Linked(links, ds, head, tail)
    requires i < |cs|
    ensures i < |ds| && cs[i] == ds[i]
  {
    if i > 0 {
      LinkedAt(links, cs, ds, head, tail, i - 1);
      assert links[cs[i-1]].next == cs[i] && links[ds[i-1]].next == At(ds, i);
    }
    assert cs[i] in cs;
  }

  // So a heap holds at most one candidate list, and the ghost sequence below is no extra state.
  lemma LinkedUnique(links: map<Ptr, Link>, cs: seq<Ptr>, ds: seq<Ptr>, head: Ptr, tail: Ptr)
    requires Linked(links, cs, head, tail) && Linked(links, ds, head, tail)
    ensures cs == ds
  {
    forall i | 0 <= i < |cs| ensures i < |ds| && cs[i] == ds[i] {
      LinkedAt(links, cs, ds, head, tail, i);
    }
    if |cs| < |ds| {
      LinkedAt(links, ds, cs, head, tail, |cs|);
    }
  }

  // the link of one record once its neighbour m, linked as l, has been joined over
  function Joined(was: Link, p: Ptr, m: Ptr, l: Link): Link {
    if p == m then Link(false, NULL, NULL)
    else if p == l.prev then was.(next := l.next)
    else if p == l.next then was.(prev := l.prev)
    else was
  }

  // every record's link, once the record at index k has been joined over and cleared
  ghost predicate Relinked(links: map<Ptr, Link>, links': map<Ptr, Link>, m: Ptr) {
    && m in links
    && links'.Keys == links.Keys
    && forall p | p in links :: links'[p] == Joined(links[p], p, m, links[m])
  }

  lemma UnlinkAt(links: map<Ptr, Link>, cs: seq<Ptr>, head: Ptr, tail: Ptr, k: nat,
                 links': map<Ptr, Link>, w: seq<Ptr>)
    requires Linked(links, cs, head, tail) && Cut(cs, k, w) && Relinked(links, links', cs[k])
    ensures forall i {:trigger links'[w[i]]} | 0 <= i < |w| ::
      w[i] in links' && links'[w[i]].next == At(w, i + 1) && links'[w[i]].prev == At(w, i - 1)
  {
  }

  lemma UnlinkCand(links: map<Ptr, Link>, cs: seq<Ptr>, head: Ptr, tail: Ptr, m: Ptr, links': map<Ptr, Link>)
    requires Linked(links, cs, head, tail) && Relinked(links, links', m)
    ensures forall p | p in links' :: links'[p].cand <==> p in cs && p != m
  {
  }

  // Joining the neighbours of the record at index k, and clearing it, leaves a linked list without it.
  lemma UnlinkKeeps(links: map<Ptr, Link>, cs: seq<Ptr>, head: Ptr, tail: Ptr, k: nat,
                    links': map<Ptr, Link>, w: seq<Ptr>)
    requires Linked(links, cs, head, tail) && Cut(cs, k, w) && Relinked(links, links', cs[k])
    requires Distinct(w) && forall y :: y in w <==> y in cs && y != cs[k]
    ensures Linked(links', w, if k == 0 then At(cs, 1) else head, if k == |cs| - 1 then At(cs, k - 1) else tail)
  {
    hide Joined;
    UnlinkAt(links, cs, head, tail, k, links', w);
    UnlinkCand(links, cs, head, tail, cs[k], links');
  }

  class List {
    var links: map<Ptr, Link>
    var head: Ptr
    var tail: Ptr
    ghost var cs: seq<Ptr>

    ghost predicate Valid()
      reads this
    {
      Linked(links, cs, head, tail)
    }

    constructor ()
      ensures Valid() && cs == [] && links == map[]
    {
      links, head, tail, cs := map[], NULL, NULL, [];
    }

    // a zeroed record: no flag, no links
    method Enter(m: Ptr)
      requires Valid() && m != NULL && m !in links
      modifies this
      ensures Valid() && cs == old(cs) && links == old(links)[m := Link(false, NULL, NULL)]
    {
      links := links[m := Link(false, NULL, NULL)];
    }

    // the record's memory goes; it must be off the list by then
    method Leave(m: Ptr)
      requires Valid() && m in links && !links[m].cand
      modifies this
      ensures Valid() && cs == old(cs) && links.Keys == old(links.Keys) - {m}
    {
      links := links - {m};
    }

    method CandAdd(m: Ptr)
      requires Valid() && m in links
      modifies this
      ensures Valid() && links.Keys == old(links.Keys)
      ensures cs == if m in old(cs) then old(cs) else old(cs) + [m]
    {
      if links[m].cand {
        return;
      }
      links := links[m := Link(true, NULL, tail)];
      if tail != NULL {
        links := links[tail := links[tail].(next := m)];
      } else {
        head := m;
      }
      tail := m;
      cs := cs + [m];
    }

    // the pointer surgery alone
    method Unlink(m: Ptr)
      requires m in links && m != NULL
      requires var l := links[m];
        && (l.prev != NULL ==> l.prev in links && l.prev != m && l.prev != l.next)
        && (l.next != NULL ==> l.next in links && l.next != m)
        && NULL !in links
      modifies this`links, this`head, this`tail
      ensures Relinked(old(links), links, m)
      ensures head == (if old(links[m]).prev == NULL then old(links[m]).next else old(head))
      ensures tail == (if old(links[m]).next == NULL then old(links[m]).prev else old(tail))
    {
      var l := links[m];
      links := links[m := l.(cand := false)];
      if l.prev != NULL {
        links := links[l.prev := links[l.prev].(next := l.next)];
      } else {
        head := l.next;
      }
      if l.next != NULL {
        links := links[l.next := links[l.next].(prev := l.prev)];
      } else {
        tail := l.prev;
      }
      links := links[m := links[m].(next := NULL, prev := NULL)];
    }

    method CandDel(m: Ptr)
      requires Valid() && m in links
      modifies this
      ensures Valid() && links.Keys == old(links.Keys)
      ensures cs == Without(old(cs), m) && m !in cs && !links[m].cand
      ensures forall y :: y in cs <==> y in old(cs) && y != m
    {
      if !links[m].cand {
        WithoutAbsent(cs, m);
        return;
      }
      ghost var k := WithoutDistinct(cs, m);
      ghost var w := Without(cs, m);
      ghost var l0, h0, t0 := links, head, tail;
      Unlink(m);
      UnlinkKeeps(l0, cs, h0, t0, k, links, w);
      cs := w;
    }
  }
}

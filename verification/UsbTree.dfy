/**
 The USB device slots, the tree they form, and the hub, storage and HID tables
 that name them.  What the wire answers is a script; the steps between two
 answers are one.  Hubs have at most USB_MAXCHILDREN ports and devices at most
 USB_MAXINTERFACES interfaces.
 */
module UsbTree {
  import opened Basics

  const USB_MAX_DEVICE := 32
  const USB_MAXCHILDREN := 8
  const USB_MAX_HUB := 16
  const UB_STOR_MAX := 4
  const UB_HID_MAX := 4

  datatype Driver = Storage | Hid

  // a slot: devnum is -1 when free, 0 before the device has its address
  datatype Device = Device(
    devnum: int,
    maxchild: nat,
    portnr: nat,
    parent: Option<nat>,
    children: seq<Option<nat>>,
    privptr: Option<nat>,
    bound: seq<Option<Driver>>)

  function NoChildren(): (c: seq<Option<nat>>)
    ensures |c| == USB_MAXCHILDREN && forall p | 0 <= p < |c| :: c[p] == None
  {
    [None, None, None, None, None, None, None, None]
  }

  function Free(): Device {
    Device(-1, 0, 0, None, NoChildren(), None, [])
  }

  // the tables: each entry names a slot
  datatype World = World(
    dev: seq<Device>,
    hub: seq<Option<nat>>,
    stor: seq<Option<nat>>,
    hid: seq<Option<nat>>,
    gone: Option<nat>)

  // what proves the slots to be a tree: how deep each is, and at which port of its parent
  datatype Shape = Shape(depth: seq<nat>, port: seq<nat>)

  // ----- the invariant

  ghost predicate Sized(w: World, g: Shape) {
    && |w.dev| == |g.depth| == |g.port| == USB_MAX_DEVICE
    && |w.hub| == USB_MAX_HUB && |w.stor| == UB_STOR_MAX && |w.hid| == UB_HID_MAX
  }

  ghost predicate Live(w: World, s: nat) {
    s < |w.dev| && w.dev[s].devnum != -1
  }

  // a slot is free and empty, or in use under its own number
  ghost predicate SlotOk(w: World, s: nat)
    requires s < |w.dev|
  {
    var d := w.dev[s];
    && (d == Free() || d.devnum == s + 1)
    && d.maxchild <= USB_MAXCHILDREN && |d.children| == USB_MAXCHILDREN
  }

  // a child is in use and knows its parent
  ghost predicate DownOk(w: World, g: Shape, s: nat, p: nat)
    requires Sized(w, g) && s < |w.dev|
  {
    var d := w.dev[s];
    p < |d.children| && d.children[p].Some? ==>
      var c := d.children[p].value;
      p < d.maxchild && Live(w, c) && w.dev[c].parent == Some(s) && g.port[c] == p
  }

  // a parent is in use, less deep, and has the child at its port
  ghost predicate UpOk(w: World, g: Shape, s: nat)
    requires Sized(w, g) && s < |w.dev|
  {
    w.dev[s].parent.Some? ==>
      var p := w.dev[s].parent.value;
      && Live(w, p) && g.depth[s] == g.depth[p] + 1
      && g.port[s] < |w.dev[p].children| && w.dev[p].children[g.port[s]] == Some(s)
  }

  ghost predicate Forest(w: World, g: Shape)
    requires Sized(w, g)
  {
    && (forall s | 0 <= s < |w.dev| :: SlotOk(w, s))
    && (forall s, p | 0 <= s < |w.dev| && 0 <= p < USB_MAXCHILDREN :: DownOk(w, g, s, p))
    && (forall s | 0 <= s < |w.dev| :: UpOk(w, g, s))
  }

  // the hub table and the devices' pointers into it agree
  ghost predicate HubsOk(w: World) {
    && (forall i | 0 <= i < |w.hub| && w.hub[i].Some? ::
          Live(w, w.hub[i].value) && w.dev[w.hub[i].value].privptr == Some(i))
    && (forall s | 0 <= s < |w.dev| && w.dev[s].privptr.Some? ::
          w.dev[s].privptr.value < |w.hub| && w.hub[w.dev[s].privptr.value] == Some(s))
  }

  // an entry of a driver's table names a device in use that has the driver
  ghost predicate DriverOk(w: World, t: seq<Option<nat>>, v: Driver) {
    forall i | 0 <= i < |t| && t[i].Some? :: Live(w, t[i].value) && Some(v) in w.dev[t[i].value].bound
  }

  ghost predicate GoneOk(w: World) {
    w.gone.Some? ==> Live(w, w.gone.value)
  }

  // the root is the one device in use without a parent, and has no class driver
  ghost predicate RootOk(w: World, root: nat) {
    && Live(w, root) && (forall v :: Some(v) !in w.dev[root].bound) && w.dev[root].parent == None
    && forall s | 0 <= s < |w.dev| && s != root && Live(w, s) :: w.dev[s].parent.Some?
  }

  ghost predicate Inv(w: World, g: Shape) {
    && Sized(w, g) && Forest(w, g) && HubsOk(w)
    && DriverOk(w, w.stor, Storage) && DriverOk(w, w.hid, Hid) && GoneOk(w)
  }

  // ----- subtrees

  // s is x or below it
  ghost predicate Below(w: World, g: Shape, x: nat, s: nat)
    requires Sized(w, g) && s < |w.dev|
    decreases g.depth[s]
  {
    s == x || (w.dev[s].parent.Some? && w.dev[s].parent.value < |w.dev|
               && g.depth[w.dev[s].parent.value] < g.depth[s] && Below(w, g, x, w.dev[s].parent.value))
  }

  // two subtrees of the same depth have no slot in common
  lemma {:induction false} BelowOne(w: World, g: Shape, x: nat, y: nat, s: nat)
    requires Sized(w, g) && x < |w.dev| && y < |w.dev| && s < |w.dev|
    requires Below(w, g, x, s) && Below(w, g, y, s) && g.depth[x] == g.depth[y]
    ensures x == y
    decreases g.depth[s]
  {
    if s == x || s == y {
      BelowDeeper(w, g, x, s);
      BelowDeeper(w, g, y, s);
    } else {
      BelowOne(w, g, x, y, w.dev[s].parent.value);
    }
  }

  lemma {:induction false} BelowDeeper(w: World, g: Shape, x: nat, s: nat)
    requires Sized(w, g) && x < |w.dev| && s < |w.dev| && Below(w, g, x, s)
    ensures s != x ==> g.depth[s] > g.depth[x]
    decreases g.depth[s]
  {
    if s != x {
      BelowDeeper(w, g, x, w.dev[s].parent.value);
    }
  }

  /** Links never run in a circle: no device is below its own child. */
  lemma {:induction false} NoCircle(w: World, g: Shape, s: nat)
    requires Inv(w, g) && s < |w.dev| && w.dev[s].parent.Some?
    ensures w.dev[s].parent.value < |w.dev| && !Below(w, g, s, w.dev[s].parent.value)
  {
    assert UpOk(w, g, s);
    if Below(w, g, s, w.dev[s].parent.value) {
      BelowDeeper(w, g, s, w.dev[s].parent.value);
    }
  }

  /** The forest is one tree: every device in use is below the root. */
  lemma {:induction false} UnderRoot(w: World, g: Shape, root: nat, s: nat)
    requires Inv(w, g) && RootOk(w, root) && Live(w, s)
    ensures Below(w, g, root, s)
    decreases g.depth[s]
  {
    if s != root {
      assert UpOk(w, g, s);
      UnderRoot(w, g, root, w.dev[s].parent.value);
    }
  }

  // the subtrees at the ports before n of x
  ghost predicate Kids(w: World, g: Shape, x: nat, n: nat, s: nat)
    requires Sized(w, g) && x < |w.dev| && s < |w.dev| && n <= |w.dev[x].children|
  {
    n > 0 && (Kids(w, g, x, n - 1, s)
              || (w.dev[x].children[n-1].Some? && Below(w, g, w.dev[x].children[n-1].value, s)))
  }

  // below x is x or below a child of it
  lemma {:induction false} KidsCover(w: World, g: Shape, x: nat, s: nat)
    requires Inv(w, g) && Live(w, x) && s < |w.dev|
    ensures SlotOk(w, x) && |w.dev[x].children| == USB_MAXCHILDREN && w.dev[x].maxchild <= USB_MAXCHILDREN
    ensures Below(w, g, x, s) <==> s == x || Kids(w, g, x, w.dev[x].maxchild, s)
    decreases g.depth[s]
  {
    assert SlotOk(w, x);
    if s != x {
      if w.dev[s].parent.Some? {
        assert UpOk(w, g, s);
        var p := w.dev[s].parent.value;
        KidsCover(w, g, x, p);
        if p == x {
          assert DownOk(w, g, x, g.port[s]);
          KidsAt(w, g, x, w.dev[x].maxchild, g.port[s], s);
        } else {
          KidsUp(w, g, x, w.dev[x].maxchild, s);
        }
      }
      if Kids(w, g, x, w.dev[x].maxchild, s) {
        KidsBelow(w, g, x, w.dev[x].maxchild, s);
      }
    }
  }

  lemma {:induction false} KidsAt(w: World, g: Shape, x: nat, n: nat, p: nat, s: nat)
    requires Sized(w, g) && x < |w.dev| && s < |w.dev| && p < n <= |w.dev[x].children|
    requires w.dev[x].children[p].Some? && Below(w, g, w.dev[x].children[p].value, s)
    ensures Kids(w, g, x, n, s)
  {
    if p < n - 1 {
      KidsAt(w, g, x, n - 1, p, s);
    }
  }

  // the subtree a slot is in is the one its parent is in
  lemma {:induction false} KidsUp(w: World, g: Shape, x: nat, n: nat, s: nat)
    requires Inv(w, g) && x < |w.dev| && s < |w.dev| && n <= |w.dev[x].children|
    requires w.dev[s].parent.Some? && w.dev[s].parent.value != x
    ensures w.dev[s].parent.value < |w.dev|
    ensures Kids(w, g, x, n, w.dev[s].parent.value) ==> Kids(w, g, x, n, s)
  {
    assert UpOk(w, g, s);
    if n > 0 {
      KidsUp(w, g, x, n - 1, s);
    }
  }

  lemma {:induction false} KidsBelow(w: World, g: Shape, x: nat, n: nat, s: nat)
    requires Inv(w, g) && x < |w.dev| && s < |w.dev| && n <= |w.dev[x].children|
    requires Kids(w, g, x, n, s)
    ensures Below(w, g, x, s)
    decreases n
  {
    if Kids(w, g, x, n - 1, s) {
      KidsBelow(w, g, x, n - 1, s);
    } else {
      var c := w.dev[x].children[n-1].value;
      assert SlotOk(w, x) && DownOk(w, g, x, n - 1) && UpOk(w, g, c);
      BelowTrans(w, g, x, c, s);
    }
  }

  lemma {:induction false} BelowTrans(w: World, g: Shape, x: nat, c: nat, s: nat)
    requires Sized(w, g) && x < |w.dev| && c < |w.dev| && s < |w.dev|
    requires w.dev[c].parent == Some(x) && g.depth[x] < g.depth[c] && Below(w, g, c, s)
    ensures Below(w, g, x, s)
    decreases g.depth[s]
  {
    if s != c {
      BelowTrans(w, g, x, c, w.dev[s].parent.value);
    }
  }

  // ----- cutting off a subtree

  // an entry that named a cut slot is empty
  function Kept(e: Option<nat>, cut: bool): Option<nat> {
    if e.Some? && cut then None else e
  }

  ghost predicate Cut(w: World, g: Shape, x: nat, e: Option<nat>)
    requires Sized(w, g)
  {
    e.Some? && e.value < |w.dev| && Below(w, g, x, e.value)
  }

  // w' is w with the slots of the subtree x free, and no table naming them; nothing else changed
  ghost predicate CutOff(w: World, w': World, g: Shape, x: nat) {
    && Sized(w, g) && Sized(w', g)
    && (forall s | 0 <= s < |w.dev| :: w'.dev[s] == if Below(w, g, x, s) then Free() else w.dev[s])
    && (forall i | 0 <= i < |w.hub| :: w'.hub[i] == Kept(w.hub[i], Cut(w, g, x, w.hub[i])))
    && (forall i | 0 <= i < |w.stor| :: w'.stor[i] == Kept(w.stor[i], Cut(w, g, x, w.stor[i])))
    && (forall i | 0 <= i < |w.hid| :: w'.hid[i] == Kept(w.hid[i], Cut(w, g, x, w.hid[i])))
    && w'.gone == Kept(w.gone, Cut(w, g, x, w.gone))
  }

  // the parent's link to port p cleared
  function Unlinked(w: World, x: nat, p: nat): World
    requires x < |w.dev| && p < |w.dev[x].children|
  {
    w.(dev := w.dev[x := w.dev[x].(children := w.dev[x].children[p := None])])
  }

  /** Cutting off a child and clearing the link keeps everything: the rest is a forest, and no table
      names a freed slot. */
  lemma CutKeeps(w: World, w': World, g: Shape, x: nat, p: nat, c: nat)
    requires Inv(w, g) && Live(w, x) && p < |w.dev[x].children| && w.dev[x].children[p] == Some(c)
    requires CutOff(w, w', g, c)
    ensures |w'.dev| == |w.dev| && w'.dev[x] == w.dev[x] && Inv(Unlinked(w', x, p), g)
  {
    assert SlotOk(w, x) && DownOk(w, g, x, p) && UpOk(w, g, c);
    CutLeavesParent(w, g, x, c);
    CutForest(w, w', g, x, p, c);
    CutTables(w, w', g, x, p, c);
  }

  lemma {:induction false} CutLeavesParent(w: World, g: Shape, x: nat, c: nat)
    requires Sized(w, g) && x < |w.dev| && c < |w.dev| && g.depth[x] < g.depth[c]
    ensures !Below(w, g, c, x)
  {
    if Below(w, g, c, x) {
      BelowDeeper(w, g, c, x);
    }
  }

  lemma {:induction false} CutForest(w: World, w': World, g: Shape, x: nat, p: nat, c: nat)
    requires Inv(w, g) && Live(w, x) && p < |w.dev[x].children| && w.dev[x].children[p] == Some(c)
    requires CutOff(w, w', g, c) && c < |w.dev| && !Below(w, g, c, x)
    ensures w'.dev[x] == w.dev[x] && Sized(Unlinked(w', x, p), g) && Forest(Unlinked(w', x, p), g)
  {
    hide SlotOk, DownOk, UpOk;
    var v := Unlinked(w', x, p);
    forall s | 0 <= s < |v.dev| ensures SlotOk(v, s) && UpOk(v, g, s) {
      CutUp(w, w', g, x, p, c, s);
    }
    forall s, q | 0 <= s < |v.dev| && 0 <= q < USB_MAXCHILDREN ensures DownOk(v, g, s, q) {
      CutDown(w, w', g, x, p, c, s, q);
    }
  }

  lemma {:induction false} CutDown(w: World, w': World, g: Shape, x: nat, p: nat, c: nat, s: nat, q: nat)
    requires Inv(w, g) && Live(w, x) && p < |w.dev[x].children| && w.dev[x].children[p] == Some(c)
    requires CutOff(w, w', g, c) && c < |w.dev| && !Below(w, g, c, x) && s < |w.dev| && q < USB_MAXCHILDREN
    ensures DownOk(Unlinked(w', x, p), g, s, q)
  {
    assert SlotOk(w, s) && SlotOk(w, x);
    assert DownOk(w, g, s, q) && DownOk(w, g, x, p);
    if w'.dev[s].children[q].Some? {
      assert UpOk(w, g, w.dev[s].children[q].value);
    }
  }

  lemma {:induction false} CutUp(w: World, w': World, g: Shape, x: nat, p: nat, c: nat, s: nat)
    requires Inv(w, g) && Live(w, x) && p < |w.dev[x].children| && w.dev[x].children[p] == Some(c)
    requires CutOff(w, w', g, c) && c < |w.dev| && !Below(w, g, c, x) && s < |w.dev|
    ensures SlotOk(Unlinked(w', x, p), s) && UpOk(Unlinked(w', x, p), g, s)
  {
    assert SlotOk(w, s) && UpOk(w, g, s);
    assert SlotOk(w, x);
    assert DownOk(w, g, x, p);
  }

  lemma {:induction false} CutTables(w: World, w': World, g: Shape, x: nat, p: nat, c: nat)
    requires Inv(w, g) && Live(w, x) && p < |w.dev[x].children|
    requires CutOff(w, w', g, c) && !Below(w, g, c, x)
    ensures w'.dev[x] == w.dev[x] && HubsOk(Unlinked(w', x, p)) && GoneOk(Unlinked(w', x, p))
    ensures DriverOk(Unlinked(w', x, p), w'.stor, Storage) && DriverOk(Unlinked(w', x, p), w'.hid, Hid)
  {
  }

  // ----- a disconnect under way: the ports before n of x are done, and x's drivers

  function Emptied(c: seq<Option<nat>>, n: nat): (r: seq<Option<nat>>)
    ensures |r| == |c| && forall p | 0 <= p < |c| :: r[p] == if p < n then None else c[p]
  {
    seq(|c|, p requires 0 <= p < |c| => if p < n then None else c[p])
  }

  ghost predicate CutKid(w: World, g: Shape, x: nat, n: nat, e: Option<nat>)
    requires Sized(w, g) && x < |w.dev| && n <= |w.dev[x].children|
  {
    e.Some? && e.value < |w.dev| && Kids(w, g, x, n, e.value)
  }

  ghost predicate Part(w0: World, w: World, g: Shape, x: nat, n: nat) {
    && Sized(w0, g) && Sized(w, g) && x < |w0.dev| && n <= |w0.dev[x].children|
    && (forall s | 0 <= s < |w0.dev| && s != x :: w.dev[s] == if Kids(w0, g, x, n, s) then Free() else w0.dev[s])
    && w.dev[x] == w0.dev[x].(children := Emptied(w0.dev[x].children, n))
    && (forall i | 0 <= i < |w0.hub| :: w.hub[i] == Kept(w0.hub[i], CutKid(w0, g, x, n, w0.hub[i])))
    && (forall i | 0 <= i < |w0.stor| ::
          w.stor[i] == Kept(w0.stor[i], w0.stor[i] == Some(x) || CutKid(w0, g, x, n, w0.stor[i])))
    && (forall i | 0 <= i < |w0.hid| ::
          w.hid[i] == Kept(w0.hid[i], w0.hid[i] == Some(x) || CutKid(w0, g, x, n, w0.hid[i])))
    && w.gone == Kept(w0.gone, CutKid(w0, g, x, n, w0.gone))
  }

  // the subtrees at two ports have no slot in common
  lemma {:induction false} KidsApart(w: World, g: Shape, x: nat, n: nat, p: nat, s: nat)
    requires Inv(w, g) && x < |w.dev| && s < |w.dev| && n <= p < |w.dev[x].children|
    requires w.dev[x].children[p].Some? && Kids(w, g, x, n, s)
    ensures !Below(w, g, w.dev[x].children[p].value, s)
  {
    if Kids(w, g, x, n - 1, s) {
      KidsApart(w, g, x, n - 1, p, s);
    } else {
      assert SlotOk(w, x) && DownOk(w, g, x, n - 1) && DownOk(w, g, x, p);
      var c, k := w.dev[x].children[p].value, w.dev[x].children[n-1].value;
      assert UpOk(w, g, c) && UpOk(w, g, k);
      if Below(w, g, c, s) {
        BelowOne(w, g, c, k, s);
      }
    }
  }

  // the cuts so far have not touched the subtree of a later port
  lemma {:induction false} LaterWhole(w0: World, w: World, g: Shape, x: nat, n: nat, s: nat)
    requires Inv(w0, g) && Part(w0, w, g, x, n) && s < |w.dev|
    requires n < |w0.dev[x].children| && w0.dev[x].children[n].Some?
    ensures Below(w, g, w0.dev[x].children[n].value, s) <==> Below(w0, g, w0.dev[x].children[n].value, s)
    decreases g.depth[s]
  {
    var c := w0.dev[x].children[n].value;
    assert UpOk(w0, g, s);
    if s != c {
      if Kids(w0, g, x, n, s) {
        KidsApart(w0, g, x, n, n, s);
        if s == x {
          KidsBelow(w0, g, x, n, x);
          NotOwnKid(w0, g, x, n);
        }
      } else if w0.dev[s].parent.Some? {
        LaterWhole(w0, w, g, x, n, w0.dev[s].parent.value);
      }
    }
  }

  lemma {:induction false} NotOwnKid(w: World, g: Shape, x: nat, n: nat)
    requires Inv(w, g) && x < |w.dev| && n <= |w.dev[x].children|
    ensures !Kids(w, g, x, n, x)
  {
    if n > 0 {
      NotOwnKid(w, g, x, n - 1);
      assert SlotOk(w, x) && DownOk(w, g, x, n - 1);
      if w.dev[x].children[n-1].Some? {
        var c := w.dev[x].children[n-1].value;
        assert UpOk(w, g, c);
        if Below(w, g, c, x) {
          BelowDeeper(w, g, c, x);
        }
      }
    }
  }

  ghost predicate SameBelow(w0: World, w: World, g: Shape, c: nat) {
    && Sized(w0, g) && Sized(w, g)
    && forall s | 0 <= s < |w.dev| :: Below(w, g, c, s) <==> Below(w0, g, c, s)
  }

  lemma SameLater(w0: World, w: World, g: Shape, x: nat, n: nat, c: nat)
    requires Inv(w0, g) && Part(w0, w, g, x, n) && n < |w0.dev[x].children| && w0.dev[x].children[n] == Some(c)
    ensures SameBelow(w0, w, g, c)
  {
    forall s | 0 <= s < |w.dev| ensures Below(w, g, c, s) <==> Below(w0, g, c, s) {
      LaterWhole(w0, w, g, x, n, s);
    }
  }

  // one more port done
  lemma {:induction false} PartStep(w0: World, w: World, w': World, g: Shape, x: nat, n: nat, c: nat)
    requires Part(w0, w, g, x, n) && n < |w0.dev[x].children| && w0.dev[x].children[n] == Some(c)
    requires CutOff(w, w', g, c) && SameBelow(w0, w, g, c) && !Below(w0, g, c, x)
    ensures Part(w0, Unlinked(w', x, n), g, x, n + 1)
  {
  }

  lemma PartSkip(w0: World, w: World, g: Shape, x: nat, n: nat)
    requires Part(w0, w, g, x, n) && n < |w0.dev[x].children| && w0.dev[x].children[n].None?
    ensures Unlinked(w, x, n) == w && Part(w0, w, g, x, n + 1)
  {
    assert w.dev[x].children[n := None] == w.dev[x].children;
    assert w.dev[x := w.dev[x]] == w.dev;
    assert w.dev[x].children == Emptied(w0.dev[x].children, n + 1);
    assert Unlinked(w, x, n).dev == w.dev;
  }

  // the drivers told, before the first port
  lemma PartStart(w0: World, w: World, g: Shape, x: nat)
    requires Inv(w0, g) && Live(w0, x) && Sized(w, g)
    requires w.dev == w0.dev && w.hub == w0.hub && w.gone == w0.gone
    requires w.stor == (if Some(Storage) in w0.dev[x].bound then Without(w0.stor, x) else w0.stor)
    requires w.hid == (if Some(Hid) in w0.dev[x].bound then Without(w0.hid, x) else w0.hid)
    ensures Part(w0, w, g, x, 0) && Inv(w, g)
  {
    assert w.dev[x].children == Emptied(w0.dev[x].children, 0);
    assert Forest(w, g) by {
      forall s | 0 <= s < |w.dev| ensures SlotOk(w, s) && UpOk(w, g, s) {
        assert SlotOk(w0, s) && UpOk(w0, g, s);
      }
      forall s, q | 0 <= s < |w.dev| && 0 <= q < USB_MAXCHILDREN ensures DownOk(w, g, s, q) {
        assert DownOk(w0, g, s, q);
      }
    }
  }

  // the ports done, the hub entry cleared, the slot freed
  lemma PartEnd(w0: World, w: World, w': World, g: Shape, x: nat)
    requires Inv(w0, g) && Live(w0, x) && SlotOk(w0, x) && Part(w0, w, g, x, w0.dev[x].maxchild)
    requires w' == World(w.dev[x := Free()], if w.dev[x].privptr.Some? then Without(w.hub, x) else w.hub,
                         w.stor, w.hid, if w.gone == Some(x) then None else w.gone)
    ensures CutOff(w0, w', g, x)
  {
    forall s | 0 <= s < |w0.dev|
      ensures Below(w0, g, x, s) <==> s == x || Kids(w0, g, x, w0.dev[x].maxchild, s)
    {
      KidsCover(w0, g, x, s);
    }
  }

  // the table with no entry naming x
  function Without(t: seq<Option<nat>>, x: nat): (r: seq<Option<nat>>)
    ensures |r| == |t| && forall i | 0 <= i < |t| :: r[i] == if t[i] == Some(x) then None else t[i]
  {
    seq(|t|, i requires 0 <= i < |t| => if t[i] == Some(x) then None else t[i])
  }

  // ----- a new device

  // a device without children, drivers or hub entry
  ghost predicate Bare(w: World, s: nat) {
    && Live(w, s) && w.dev[s].children == NoChildren() && w.dev[s].privptr.None?
    && forall v :: Some(v) !in w.dev[s].bound
  }

  function Linked(w: World, h: nat, port: nat, s: nat): World
    requires h < |w.dev| && s < |w.dev| && port < |w.dev[h].children|
  {
    w.(dev := w.dev[s := Free().(devnum := s + 1, parent := Some(h))]
                   [h := w.dev[h].(portnr := port, children := w.dev[h].children[port := Some(s)])])
  }

  function Planted(g: Shape, h: nat, port: nat, s: nat): Shape
    requires h < |g.depth| && s < |g.depth| == |g.port|
  {
    Shape(g.depth[s := g.depth[h] + 1], g.port[s := port])
  }

  lemma LinkKeeps(w: World, g: Shape, h: nat, port: nat, s: nat)
    requires Inv(w, g) && Live(w, h) && s < |w.dev| && w.dev[s] == Free()
    requires port < w.dev[h].maxchild && |w.dev[h].children| == USB_MAXCHILDREN && port < USB_MAXCHILDREN
    requires w.dev[h].children[port].None?
    ensures Inv(Linked(w, h, port, s), Planted(g, h, port, s)) && Bare(Linked(w, h, port, s), s)
  {
    hide SlotOk, DownOk, UpOk;
    var v, k := Linked(w, h, port, s), Planted(g, h, port, s);
    forall t | 0 <= t < |v.dev| ensures SlotOk(v, t) && UpOk(v, k, t) {
      LinkUp(w, g, h, port, s, t);
    }
    forall t, q | 0 <= t < |v.dev| && 0 <= q < USB_MAXCHILDREN ensures DownOk(v, k, t, q) {
      LinkDown(w, g, h, port, s, t, q);
    }
  }

  lemma LinkUp(w: World, g: Shape, h: nat, port: nat, s: nat, t: nat)
    requires Sized(w, g) && Forest(w, g) && Live(w, h) && s < |w.dev| && w.dev[s] == Free() && t < |w.dev|
    requires port < |w.dev[h].children| == USB_MAXCHILDREN && w.dev[h].children[port].None?
    ensures SlotOk(Linked(w, h, port, s), t) && UpOk(Linked(w, h, port, s), Planted(g, h, port, s), t)
  {
    assert SlotOk(w, t) && UpOk(w, g, t) && SlotOk(w, h);
  }

  lemma LinkDown(w: World, g: Shape, h: nat, port: nat, s: nat, t: nat, q: nat)
    requires Sized(w, g) && Forest(w, g) && Live(w, h) && s < |w.dev| && w.dev[s] == Free() && t < |w.dev|
    requires port < w.dev[h].maxchild && port < |w.dev[h].children| == USB_MAXCHILDREN && q < USB_MAXCHILDREN
    ensures DownOk(Linked(w, h, port, s), Planted(g, h, port, s), t, q)
  {
    assert SlotOk(w, t) && DownOk(w, g, t, q);
  }

  // below a device without children is only itself
  lemma {:induction false} BareAlone(w: World, g: Shape, s: nat, t: nat)
    requires Inv(w, g) && Bare(w, s) && t < |w.dev|
    ensures Below(w, g, s, t) <==> t == s
    decreases g.depth[t]
  {
    assert UpOk(w, g, t);
    if t != s && w.dev[t].parent.Some? {
      BareAlone(w, g, s, w.dev[t].parent.value);
    }
  }

  // a slot freed before anything named it is a subtree cut off
  lemma FreedIsCut(w: World, g: Shape, s: nat)
    requires Inv(w, g) && Bare(w, s)
    ensures CutOff(w, w.(dev := w.dev[s := Free()], gone := if w.gone == Some(s) then None else w.gone), g, s)
  {
    forall t | 0 <= t < |w.dev| ensures Below(w, g, s, t) <==> t == s {
      BareAlone(w, g, s, t);
    }
  }

  // nothing but slot s and entries naming it differs, and what was there of it stays linked
  ghost predicate OnlyDevice(w: World, w': World, s: nat) {
    && |w'.dev| == |w.dev| && s < |w.dev|
    && (forall t | 0 <= t < |w.dev| && t != s :: w'.dev[t] == w.dev[t])
    && w'.dev[s].devnum == w.dev[s].devnum && w'.dev[s].parent == w.dev[s].parent
    && w'.dev[s].children == w.dev[s].children && w'.dev[s].portnr == w.dev[s].portnr
    && MoreOf(w.hub, w'.hub, s) && MoreOf(w.stor, w'.stor, s) && MoreOf(w.hid, w'.hid, s)
    && (w'.gone == w.gone || w'.gone == Some(s))
  }

  // entries of t stay, and new ones name s
  ghost predicate MoreOf(t: seq<Option<nat>>, t': seq<Option<nat>>, s: nat) {
    |t'| == |t| && forall i | 0 <= i < |t| :: t'[i] == t[i] || (t[i].None? && t'[i] == Some(s))
  }

  // the first free entry has become s
  ghost predicate Entered(t: seq<Option<nat>>, t': seq<Option<nat>>, s: nat) {
    exists i :: EnteredAt(t, t', s, i)
  }

  ghost predicate EnteredAt(t: seq<Option<nat>>, t': seq<Option<nat>>, s: nat, i: nat) {
    i < |t| && t[i].None? && (forall k | 0 <= k < i :: t[k].Some?) && t' == t[i := Some(s)]
  }

  // a device of a leaf's shape in place of a leaf keeps the forest
  lemma LeafForest(w: World, w': World, g: Shape, s: nat)
    requires Sized(w, g) && Sized(w', g) && Forest(w, g) && Live(w, s) && OnlyDevice(w, w', s)
    requires w.dev[s].children == NoChildren() && w'.dev[s].maxchild <= USB_MAXCHILDREN
    ensures Forest(w', g)
  {
    forall t | 0 <= t < |w'.dev| ensures SlotOk(w', t) && UpOk(w', g, t) {
      assert SlotOk(w, t) && UpOk(w, g, t) && SlotOk(w, s);
    }
    forall t, q | 0 <= t < |w'.dev| && 0 <= q < USB_MAXCHILDREN ensures DownOk(w', g, t, q) {
      assert SlotOk(w, t) && DownOk(w, g, t, q);
    }
  }

  // ----- what the wire answers

  datatype IfClass = HubClass | MassStorage | BootHid | Other

  // endpoints: it has the endpoints its class needs
  datatype Iface = Iface(cls: IfClass, endpoints: bool)

  datatype HubAnswer = HubAnswer(descriptor: bool, ports: nat, status: bool)

  // one enumeration; pulled: the root port lost it while a transfer was under way
  datatype Answers = Answers(
    first: bool, reset: bool, packet: nat, address: bool, descriptor: bool,
    config: Option<seq<Iface>>, declared: nat, setconf: bool, hub: HubAnswer, pulled: bool)

  ghost predicate Plausible(a: Answers) {
    a.hub.ports <= USB_MAXCHILDREN
  }

  // a change at a port: the status it shows, whether the plug holds, and the enumeration
  datatype Change = Change(connected: bool, enabled: bool, steady: bool, reset: bool, answers: Answers)

  // what a connect change leaves at the port before it looks for a new device
  ghost predicate Unplugged(w: World, mid: World, g: Shape, h: nat, port: nat) {
    && Sized(w, g) && Live(w, h) && port < |w.dev[h].children|
    && match w.dev[h].children[port]
       case None => mid == w
       case Some(c) =>
         exists cut: World ::
           && CutOff(w, cut, g, c) && h < |cut.dev| && port < |cut.dev[h].children|
           && mid == Unlinked(cut, h, port)
  }

  // a new device s at the port, in a slot that was free
  ghost predicate Plugged(mid: World, w: World, h: nat, port: nat, s: nat) {
    && h < |mid.dev| && s < |mid.dev| && mid.dev[s] == Free() && port < |mid.dev[h].children|
    && OnlyDevice(Linked(mid, h, port, s), w, s)
  }

  predicate HasRoom(t: seq<Option<nat>>) {
    exists i | 0 <= i < |t| :: t[i].None?
  }

  // every answer on the way to the drivers is right
  predicate Answered(a: Answers, child: bool) {
    && a.first && (child ==> a.reset) && a.packet in {8, 16, 32, 64}
    && a.address && a.descriptor && a.config.Some? && a.setconf
  }

  // the driver that takes an interface, given the tables
  function Taker(f: Iface, stor: seq<Option<nat>>, hid: seq<Option<nat>>): Option<Driver> {
    if !f.endpoints then None
    else if f.cls == MassStorage && HasRoom(stor) then Some(Storage)
    else if f.cls == BootHid && HasRoom(hid) then Some(Hid)
    else None
  }

  // ----- what the drivers take

  // how many entries of the table are free
  function Frees(t: seq<Option<nat>>): nat {
    if t == [] then 0 else Frees(t[..|t|-1]) + if t[|t|-1].None? then 1 else 0
  }

  // how many of the interfaces are of that class and have its endpoints
  function Wanting(ifaces: seq<Iface>, c: IfClass): nat {
    if ifaces == [] then 0
    else Wanting(ifaces[..|ifaces|-1], c) + if ifaces[|ifaces|-1] == Iface(c, true) then 1 else 0
  }

  // the first k free entries of t, as many as there are, have become s
  ghost predicate Filled(t: seq<Option<nat>>, t': seq<Option<nat>>, s: nat, k: nat) {
    |t'| == |t| && forall i | 0 <= i < |t| :: t'[i] == if t[i].None? && Frees(t[..i]) < k then Some(s) else t[i]
  }

  // interface i is declared, of class c, and an entry is free beyond those for the interfaces before it
  ghost predicate Gets(ifaces: seq<Iface>, declared: nat, t: seq<Option<nat>>, c: IfClass, i: nat)
    requires i < |ifaces|
  {
    i < declared && ifaces[i] == Iface(c, true) && Wanting(ifaces[..i], c) < Frees(t)
  }

  // the first n interfaces have been offered to the drivers, of the tables of w
  ghost predicate Offered(w: World, w': World, s: nat, ifaces: seq<Iface>, declared: nat, n: nat) {
    && n <= |ifaces| && s < |w'.dev| && |w'.dev[s].bound| == |ifaces|
    && (forall i | 0 <= i < n ::
          && (w'.dev[s].bound[i] == Some(Storage) <==> Gets(ifaces, declared, w.stor, MassStorage, i))
          && (w'.dev[s].bound[i] == Some(Hid) <==> Gets(ifaces, declared, w.hid, BootHid, i)))
    && (forall i | n <= i < |ifaces| :: w'.dev[s].bound[i].None?)
    && Filled(w.stor, w'.stor, s, Wanting(ifaces[..if n < declared then n else declared], MassStorage))
    && Filled(w.hid, w'.hid, s, Wanting(ifaces[..if n < declared then n else declared], BootHid))
  }

  // the hub has an entry exactly when one was free, and its descriptor and its status came
  ghost predicate HubTaken(w: World, w': World, s: nat, a: HubAnswer) {
    && s < |w.dev| == |w'.dev| && w'.stor == w.stor && w'.hid == w.hid
    && (forall v :: Some(v) !in w'.dev[s].bound)
    && if Frees(w.hub) > 0 && a.descriptor && a.status
       then exists e: nat ::
         EnteredAt(w.hub, w'.hub, s, e) && w'.dev[s].privptr == Some(e) && w'.dev[s].maxchild == a.ports
       else w'.hub == w.hub && w'.dev[s].privptr.None?
  }

  /** What has become of the tables and the slot of a device that came up. */
  ghost predicate Attached(w: World, w': World, s: nat, a: Answers) {
    && a.config.Some? && s < |w.dev| == |w'.dev|
    && var ifaces := a.config.value;
    if |ifaces| > 0 && ifaces[0] == Iface(HubClass, true) then HubTaken(w, w', s, a.hub)
    else
      && Offered(w, w', s, ifaces, a.declared, |ifaces|)
      && w'.hub == w.hub && w'.dev[s].privptr.None? && w'.dev[s].maxchild == w.dev[s].maxchild
  }

  lemma AttachedFrom(w: World, w1: World, w': World, s: nat, a: Answers)
    requires w1 == w.(gone := w1.gone) && s < |w.dev|
    ensures Attached(w1, w', s, a) ==> Attached(w, w', s, a)
  {
  }

  lemma {:induction false} FreesRoom(t: seq<Option<nat>>)
    ensures Frees(t) > 0 <==> HasRoom(t)
  {
    if t != [] {
      var front := t[..|t|-1];
      FreesRoom(front);
      if HasRoom(front) {
        var i :| 0 <= i < |front| && front[i].None?;
        assert t[i].None?;
      }
      if HasRoom(t) && t[|t|-1].Some? {
        var i :| 0 <= i < |t| && t[i].None?;
        assert front[i].None?;
      }
    }
  }

  // every entry before i is taken when k are: none but the first k were free
  lemma {:induction false} FilledBefore(t: seq<Option<nat>>, t': seq<Option<nat>>, s: nat, k: nat, i: nat)
    requires Filled(t, t', s, k) && i <= |t| && forall j | 0 <= j < i :: t'[j].Some?
    ensures Frees(t[..i]) <= k
  {
    if i > 0 {
      FilledBefore(t, t', s, k, i - 1);
      assert t[..i][..i - 1] == t[..i - 1];
    } else {
      assert t[..0] == [];
    }
  }

  lemma {:induction false} FreesUp(t: seq<Option<nat>>, i: nat, j: nat)
    requires i <= j <= |t|
    ensures Frees(t[..i]) <= Frees(t[..j])
    ensures i < j && t[i].None? ==> Frees(t[..i]) < Frees(t[..j])
  {
    if i < j {
      FreesUp(t, i, j - 1);
      assert t[..j][..j - 1] == t[..j - 1];
    }
  }

  // one entry more is taken, if there is one
  lemma {:induction false} FilledStep(t: seq<Option<nat>>, t': seq<Option<nat>>, s: nat, k: nat, t'': seq<Option<nat>>)
    requires Filled(t, t', s, k)
    requires if HasRoom(t') then Entered(t', t'', s) else t'' == t'
    ensures HasRoom(t') <==> k < Frees(t)
    ensures Filled(t, t'', s, k + 1)
  {
    if HasRoom(t') {
      var i :| EnteredAt(t', t'', s, i);
      FilledBefore(t, t', s, k, i);
      FreesUp(t, i, |t|);
      assert t[..|t|] == t;
      forall j | 0 <= j < |t| && t[j].None? ensures Frees(t[..j]) < k + 1 <==> j <= i {
        if j <= i { FreesUp(t, j, i); } else { FreesUp(t, i, j); }
      }
    } else {
      FilledBefore(t, t', s, k, |t|);
      assert t[..|t|] == t;
      forall j | 0 <= j < |t| && t[j].None? ensures Frees(t[..j]) < k {
      }
    }
  }

  lemma FilledNone(t: seq<Option<nat>>, s: nat)
    ensures Filled(t, t, s, 0)
  {
  }

  // what one offer does to a driver's table
  ghost predicate Probed(t: seq<Option<nat>>, t': seq<Option<nat>>, s: nat, asked: bool) {
    if asked && HasRoom(t) then Entered(t, t', s) else t' == t
  }

  lemma {:induction false} WantingOne(ifaces: seq<Iface>, n: nat, c: IfClass)
    requires n < |ifaces|
    ensures Wanting(ifaces[..n + 1], c) == Wanting(ifaces[..n], c) + if ifaces[n] == Iface(c, true) then 1 else 0
  {
    assert ifaces[..n + 1][..n] == ifaces[..n];
  }

  // one interface more
  lemma OfferedStep(w: World, w1: World, w2: World, s: nat, ifaces: seq<Iface>, declared: nat, n: nat)
    requires Offered(w, w1, s, ifaces, declared, n) && n < |ifaces| && |w2.dev| == |w1.dev|
    requires var b := w1.dev[s].bound;
      w2.dev[s].bound == if n < declared then b[n := Taker(ifaces[n], w1.stor, w1.hid)] else b
    requires Probed(w1.stor, w2.stor, s, n < declared && ifaces[n] == Iface(MassStorage, true))
    requires Probed(w1.hid, w2.hid, s, n < declared && ifaces[n] == Iface(BootHid, true))
    ensures Offered(w, w2, s, ifaces, declared, n + 1)
  {
    hide Filled, Entered, HasRoom;
    WantingOne(ifaces, n, MassStorage);
    WantingOne(ifaces, n, BootHid);
    if n < declared {
      OfferedTo(w.stor, w1.stor, w2.stor, s, ifaces, n, MassStorage);
      OfferedTo(w.hid, w1.hid, w2.hid, s, ifaces, n, BootHid);
    }
  }

  lemma {:induction false} OfferedTo(t: seq<Option<nat>>, t': seq<Option<nat>>, t'': seq<Option<nat>>, s: nat,
                                     ifaces: seq<Iface>, n: nat, c: IfClass)
    requires n < |ifaces| && Filled(t, t', s, Wanting(ifaces[..n], c))
    requires Probed(t', t'', s, ifaces[n] == Iface(c, true))
    ensures Filled(t, t'', s, Wanting(ifaces[..n + 1], c))
    ensures ifaces[n] == Iface(c, true) ==> (HasRoom(t') <==> Wanting(ifaces[..n], c) < Frees(t))
  {
    WantingOne(ifaces, n, c);
    if ifaces[n] == Iface(c, true) {
      FilledStep(t, t', s, Wanting(ifaces[..n], c), t'');
    }
  }

  lemma OfferedFacts(w: World, w': World, s: nat, ifaces: seq<Iface>, declared: nat, n: nat)
    requires Offered(w, w', s, ifaces, declared, n)
    ensures s < |w'.dev| && |w'.dev[s].bound| == |ifaces|
    ensures forall i | n <= i < |ifaces| :: w'.dev[s].bound[i].None?
  {
  }

  // offering looks at the tables alone
  lemma OfferedFrom(w: World, w1: World, w': World, s: nat, ifaces: seq<Iface>, declared: nat)
    requires w1.stor == w.stor && w1.hid == w.hid && Offered(w1, w', s, ifaces, declared, |ifaces|)
    ensures Offered(w, w', s, ifaces, declared, |ifaces|)
  {
  }

  lemma OfferedNone(w: World, w': World, s: nat, ifaces: seq<Iface>, declared: nat)
    requires s < |w'.dev| && w'.dev[s].bound == seq(|ifaces|, _ => None) && w'.stor == w.stor && w'.hid == w.hid
    ensures Offered(w, w', s, ifaces, declared, 0)
  {
    FilledNone(w.stor, s);
    FilledNone(w.hid, s);
    assert ifaces[..0] == [];
  }

  // a free entry of a table
  method FreeEntry(t: seq<Option<nat>>) returns (i: nat)
    ensures i <= |t| && (i < |t| ==> t[i].None?) && (i < |t| <==> HasRoom(t))
    ensures forall k | 0 <= k < i :: t[k].Some?
  {
    i := 0;
    while i < |t| && t[i].Some?
      invariant i <= |t| && forall k | 0 <= k < i :: t[k].Some?
    {
      i := i + 1;
    }
  }

  // one event of a run: a hub's poll finds a change at a port, the host controller loses a device during
  // a transfer, the stack is brought up or down
  datatype Event =
    | Poll(entry: nat, port: nat, change: Change)
    | Pulled(slot: nat)
    | Up(answers: Answers)
    | Down

  // the host controller's own root hub always shows itself as a hub
  ghost predicate IsHub(a: Answers) {
    a.config.Some? ==> |a.config.value| > 0 && a.config.value[0] == Iface(HubClass, true)
  }

  ghost predicate EventOk(e: Event) {
    match e
    case Poll(_, _, c) => Plausible(c.answers)
    case Pulled(_) => true
    case Up(a) => Plausible(a) && IsHub(a)
    case Down => true
  }

  // the stack is down: nothing but the slots' old contents
  ghost predicate Quiet(w: World) {
    w.stor == [None, None, None, None] && w.hid == [None, None, None, None]
  }

  class Stack {
    // the root hub's slot while the stack is up
    var root: Option<nat>
    var dev: seq<Device>
    var hub: seq<Option<nat>>
    var stor: seq<Option<nat>>
    var hid: seq<Option<nat>>
    var devgone: Option<nat>
    ghost var shape: Shape

    function Now(): World
      reads this
    {
      World(dev, hub, stor, hid, devgone)
    }

    /** disconnect of the storage driver. */
    method StorageDisconnect(x: nat)
      modifies this`stor
      ensures stor == Without(old(stor), x)
    {
      var i := 0;
      while i < |stor|
        invariant i <= |stor| == |old(stor)|
        invariant forall k | 0 <= k < |stor| :: stor[k] == if k < i then Without(old(stor), x)[k] else old(stor)[k]
      {
        if stor[i] == Some(x) {
          stor := stor[i := None];
        }
        i := i + 1;
      }
    }

    /** disconnect of the HID driver. */
    method HidDisconnect(x: nat)
      modifies this`hid
      ensures hid == Without(old(hid), x)
    {
      var i := 0;
      while i < |hid|
        invariant i <= |hid| == |old(hid)|
        invariant forall k | 0 <= k < |hid| :: hid[k] == if k < i then Without(old(hid), x)[k] else old(hid)[k]
      {
        if hid[i] == Some(x) {
          hid := hid[i := None];
        }
        i := i + 1;
      }
    }

    /** usb_hub_disconnect: the first entry that names the hub. */
    method HubDisconnect(x: nat)
      requires forall i, j | 0 <= i < j < |hub| :: hub[i] == Some(x) ==> hub[j] != Some(x)
      modifies this`hub
      ensures hub == Without(old(hub), x)
    {
      var i := 0;
      while i < |hub|
        invariant i <= |hub| && hub == old(hub) && forall k | 0 <= k < i :: hub[k] != Some(x)
      {
        if hub[i] == Some(x) {
          hub := hub[i := None];
          return;
        }
        i := i + 1;
      }
    }

    // every driver of a device told
    method DriversDisconnect(x: nat)
      requires x < |dev|
      modifies this`stor, this`hid
      ensures stor == if Some(Storage) in dev[x].bound then Without(old(stor), x) else old(stor)
      ensures hid == if Some(Hid) in dev[x].bound then Without(old(hid), x) else old(hid)
    {
      var i, b := 0, dev[x].bound;
      while i < |b|
        invariant i <= |b|
        invariant stor == if Some(Storage) in b[..i] then Without(old(stor), x) else old(stor)
        invariant hid == if Some(Hid) in b[..i] then Without(old(hid), x) else old(hid)
      {
        if b[i] == Some(Storage) {
          StorageDisconnect(x);
        } else if b[i] == Some(Hid) {
          HidDisconnect(x);
        }
        assert b[..i + 1] == b[..i] + [b[i]];
        i := i + 1;
      }
      assert b[..|b|] == b;
    }

    /** usb_disconnect: the device and everything below it goes, every table forgets exactly the freed
        slots, and nothing else changes. */
    method Disconnect(x: nat, ghost top: nat)
      requires Inv(Now(), shape) && Live(Now(), x)
      requires forall s | 0 <= s < |shape.depth| :: shape.depth[s] < top
      modifies this
      ensures root == old(root) && shape == old(shape) && CutOff(old(Now()), Now(), shape, x)
      decreases top - shape.depth[x]
    {
      hide Inv, CutOff, Part;
      ghost var w0, g := Now(), shape;
      InvSizes(w0, g, x);
      DriversDisconnect(x);
      PartStart(w0, Now(), g, x);
      var i := 0;
      while i < dev[x].maxchild
        invariant root == old(root) && shape == g && |dev| == |w0.dev| && i <= dev[x].maxchild == w0.dev[x].maxchild
        invariant Inv(Now(), shape) && Part(w0, Now(), g, x, i)
      {
        PartKeeps(w0, Now(), g, x, i);
        var child := dev[x].children[i];
        if child.Some? {
          ghost var w := Now();
          ChildDeeper(w, g, x, i, child.value);
          SameLater(w0, w, g, x, i, child.value);
          Disconnect(child.value, top);
          CutKeeps(w, Now(), g, x, i, child.value);
          PartStep(w0, w, Now(), g, x, i, child.value);
        } else {
          PartSkip(w0, Now(), g, x, i);
        }
        dev := dev[x := dev[x].(children := dev[x].children[i := None])];
        i := i + 1;
      }
      PartKeeps(w0, Now(), g, x, i);
      ghost var w := Now();
      HubOnce(w, g, x);
      if dev[x].privptr.Some? {
        HubDisconnect(x);
      }
      if devgone == Some(x) {
        devgone := None;
      }
      dev := dev[x := Free()];
      PartEnd(w0, w, Now(), g, x);
    }

    /** usb_alloc_new_device: the first free slot. */
    method AllocDevice() returns (s: Option<nat>)
      requires Inv(Now(), shape)
      modifies this`dev
      ensures s.None? ==> dev == old(dev)
      ensures s.Some? ==> s.value < |old(dev)| && old(dev)[s.value] == Free()
      ensures forall t | 0 <= t < (if s.Some? then s.value else |old(dev)|) :: old(dev)[t].devnum != -1
      ensures s.Some? ==> dev == old(dev)[s.value := Free().(devnum := s.value + 1)]
    {
      var i := 0;
      while i < USB_MAX_DEVICE && dev[i].devnum != -1
        invariant i <= USB_MAX_DEVICE && forall t | 0 <= t < i :: dev[t].devnum != -1
      {
        i := i + 1;
      }
      if i == USB_MAX_DEVICE {
        return None;
      }
      assert SlotOk(Now(), i);
      dev := dev[i := dev[i].(devnum := i + 1, maxchild := 0, children := NoChildren(), parent := None)];
      return Some(i);
    }

    /** usb_free_device. */
    method FreeDevice(devnum: int)
      requires 0 < devnum <= |dev|
      modifies this`dev, this`devgone
      ensures Now() == old(Now()).(dev := old(dev)[devnum - 1 := Free()],
                                   gone := if old(devgone) == Some(devnum - 1) then None else old(devgone))
    {
      var s := devnum - 1;
      if devgone == Some(s) {
        devgone := None;
      }
      dev := dev[s := Free()];
    }

    /** usb_hub_configure: an entry of the table is taken only when every answer was right. */
    method HubConfigure(s: nat, a: HubAnswer) returns (e: Option<nat>)
      requires s < |dev|
      modifies this`dev, this`hub
      ensures |dev| == |old(dev)| && dev == old(dev)[s := old(dev)[s].(maxchild := dev[s].maxchild)]
      ensures dev[s].maxchild == old(dev)[s].maxchild || dev[s].maxchild == a.ports
      ensures e.Some? <==> HasRoom(old(hub)) && a.descriptor && a.status
      ensures e.None? ==> hub == old(hub)
      ensures e.Some? ==> EnteredAt(old(hub), hub, s, e.value)
      ensures e.Some? ==> dev[s].maxchild == a.ports
    {
      var i := FreeEntry(hub);
      if i == |hub| || !a.descriptor {
        return None;
      }
      dev := dev[s := dev[s].(maxchild := a.ports)];
      if !a.status {
        return None;
      }
      hub := hub[i := Some(s)];
      return Some(i);
    }

    // the storage driver's probe: a device without endpoints leaves no entry
    method StorageProbe(s: nat, f: Iface) returns (ok: bool)
      modifies this`stor
      ensures ok <==> f.cls == MassStorage && f.endpoints && HasRoom(old(stor))
      ensures ok ==> Entered(old(stor), stor, s)
      ensures !ok ==> stor == old(stor)
    {
      if f.cls != MassStorage {
        return false;
      }
      var i := FreeEntry(stor);
      if i == |stor| {
        return false;
      }
      ghost var was := stor;
      stor := stor[i := Some(s)];
      if !f.endpoints {
        stor := stor[i := None];
        return false;
      }
      assert EnteredAt(was, stor, s, i);
      return true;
    }

    // the HID driver's probe
    method HidProbe(s: nat, f: Iface) returns (ok: bool)
      modifies this`hid
      ensures ok <==> f.cls == BootHid && f.endpoints && HasRoom(old(hid))
      ensures ok ==> Entered(old(hid), hid, s)
      ensures !ok ==> hid == old(hid)
    {
      if f.cls != BootHid || !f.endpoints {
        return false;
      }
      var i := FreeEntry(hid);
      if i == |hid| {
        return false;
      }
      assert EnteredAt(hid, hid[i := Some(s)], s, i);
      hid := hid[i := Some(s)];
      return true;
    }

    /** usb_find_interface_driver: the driver is noted at the interface when it took it. */
    method FindDriver(s: nat, n: nat, f: Iface, declared: nat)
      requires Inv(Now(), shape) && Live(Now(), s) && n < |dev[s].bound|
      requires dev[s].children == NoChildren()
      modifies this`dev, this`stor, this`hid
      ensures Inv(Now(), shape) && OnlyDevice(old(Now()), Now(), s)
      ensures |dev[s].bound| == |old(dev)[s].bound| && dev[s].maxchild == old(dev)[s].maxchild
      ensures dev[s].bound == if n < declared && old(dev)[s].bound[n].None?
        then old(dev)[s].bound[n := Taker(f, old(stor), old(hid))] else old(dev)[s].bound
      ensures hub == old(hub) && dev[s].privptr == old(dev)[s].privptr
      ensures var open := n < declared && old(dev)[s].bound[n].None?;
        && Probed(old(stor), stor, s, open && f == Iface(MassStorage, true))
        && Probed(old(hid), hid, s, open && f == Iface(BootHid, true))
    {
      if n >= declared || dev[s].bound[n].Some? {
        OnlyNothing(Now(), s);
        return;
      }
      ghost var w := Now();
      var v := None;
      var ok := StorageProbe(s, f);
      if ok {
        v := Some(Storage);
      } else {
        ok := HidProbe(s, f);
        if ok {
          v := Some(Hid);
        }
      }
      if v.Some? {
        dev := dev[s := dev[s].(bound := dev[s].bound[n := v])];
        BoundKeeps(w, Now(), shape, s, n, v.value);
      } else {
        OnlyNothing(Now(), s);
      }
    }

    // the interfaces one after the other
    method FindDrivers(s: nat, a: Answers, ifaces: seq<Iface>)
      requires Inv(Now(), shape) && Live(Now(), s) && dev[s].bound == seq(|ifaces|, _ => None)
      requires dev[s].children == NoChildren()
      modifies this`dev, this`stor, this`hid
      ensures Inv(Now(), shape) && OnlyDevice(old(Now()), Now(), s)
      ensures dev[s].maxchild == old(dev)[s].maxchild && dev[s].privptr == old(dev)[s].privptr
      ensures Offered(old(Now()), Now(), s, ifaces, a.declared, |ifaces|) && hub == old(hub)
    {
      hide Inv, OnlyDevice, Offered, Probed, Taker;
      ghost var w0 := Now();
      OnlyNothing(w0, s);
      OfferedNone(w0, w0, s, ifaces, a.declared);
      var i := 0;
      while i < |ifaces|
        invariant i <= |ifaces| && Inv(Now(), shape) && OnlyDevice(w0, Now(), s)
        invariant s < |dev| && |dev[s].bound| == |ifaces| && dev[s].maxchild == w0.dev[s].maxchild
        invariant dev[s].children == NoChildren() && Live(Now(), s)
        invariant Offered(w0, Now(), s, ifaces, a.declared, i) && hub == w0.hub && dev[s].privptr == w0.dev[s].privptr
      {
        ghost var w := Now();
        OfferedFacts(w0, w, s, ifaces, a.declared, i);
        FindDriver(s, i, ifaces[i], a.declared);
        OfferedStep(w0, w, Now(), s, ifaces, a.declared, i);
        OnlyTwice(w0, w, Now(), s);
        i := i + 1;
      }
    }

    // the device has its address: every later failure leaves it bare
    method Configure(s: nat, a: Answers) returns (ok: bool)
      requires Inv(Now(), shape) && Bare(Now(), s) && Plausible(a)
      modifies this`dev, this`hub, this`stor, this`hid
      ensures Inv(Now(), shape) && OnlyDevice(old(Now()), Now(), s)
      ensures ok <==> a.address && a.descriptor && a.config.Some? && a.setconf
      ensures !ok ==> Bare(Now(), s)
      ensures ok ==> Attached(old(Now()), Now(), s, a)
      ensures devgone == old(devgone)
      ensures a.config.Some? && |a.config.value| > 0 && a.config.value[0] == Iface(HubClass, true) ==>
        forall v :: Some(v) !in dev[s].bound
    {
      hide Offered;
      ghost var w := Now();
      OnlyNothing(w, s);
      if !a.address || !a.descriptor || a.config.None? {
        return false;
      }
      var ifaces := a.config.value;
      dev := dev[s := dev[s].(bound := seq(|ifaces|, _ => None))];
      BareKeeps(w, Now(), shape, s, seq(|ifaces|, _ => None));
      if !a.setconf {
        return false;
      }
      ghost var w1 := Now();
      if |ifaces| > 0 && ifaces[0] == Iface(HubClass, true) {
        SlotSmall(w1, shape, s);
        FreesRoom(hub);
        var e := HubConfigure(s, a.hub);
        dev := dev[s := dev[s].(privptr := e)];
        HubKeeps(w1, Now(), shape, s, e);
      } else {
        FindDrivers(s, a, ifaces);
        OfferedFrom(w, w1, Now(), s, ifaces, a.declared);
      }
      OnlyTwice(w, w1, Now(), s);
      return true;
    }

    /** usb_new_device: whatever fails, no table names the device. */
    method NewDevice(s: nat, a: Answers) returns (ok: bool)
      requires Inv(Now(), shape) && Bare(Now(), s) && Plausible(a)
      modifies this`dev, this`hub, this`stor, this`hid, this`devgone
      ensures Inv(Now(), shape) && OnlyDevice(old(Now()), Now(), s)
      ensures ok <==> Answered(a, old(dev)[s].parent.Some?)
      ensures devgone == if a.pulled && old(dev)[s].parent.Some? then Some(s) else old(devgone)
      ensures !ok ==> Bare(Now(), s)
      ensures ok ==> Attached(old(Now()), Now(), s, a)
      ensures a.config.Some? && |a.config.value| > 0 && a.config.value[0] == Iface(HubClass, true) ==>
        !ok || forall v :: Some(v) !in dev[s].bound
    {
      hide Inv, OnlyDevice, Attached;
      ghost var w := Now();
      BareSlot(w, shape, s);
      var parent, addr := dev[s].parent, dev[s].devnum;
      dev := dev[s := dev[s].(devnum := 0)];
      if a.pulled && parent.Some? {
        devgone := Some(s);
      }
      ghost var w1 := w.(gone := devgone);
      PulledKeeps(w, w1, shape, s);
      if !a.first {
        dev := dev[s := dev[s].(devnum := addr)];
        assert dev == w.dev;
        return false;
      }
      if parent.Some? {
        var p := parent.value;
        PortOf(w, shape, s, p);
        var j := 0;
        while j < dev[p].maxchild && dev[p].children[j] != Some(s)
          invariant j <= shape.port[s]
        {
          j := j + 1;
        }
        if j == dev[p].maxchild || !a.reset {
          dev := dev[s := dev[s].(devnum := addr)];
          assert dev == w.dev;
          return false;
        }
      }
      dev := dev[s := dev[s].(devnum := addr)];
      assert dev == w.dev;
      if a.packet != 8 && a.packet != 16 && a.packet != 32 && a.packet != 64 {
        return false;
      }
      ok := Configure(s, a);
      AttachedFrom(w, w1, Now(), s, a);
      OnlyTwice(w, w1, Now(), s);
    }

    // the device at a port, if any, gone with its subtree
    method RemoveChild(h: nat, port: nat)
      requires Inv(Now(), shape) && Live(Now(), h) && port < dev[h].maxchild
      requires dev[h].maxchild <= |dev[h].children|
      modifies this
      ensures root == old(root) && shape == old(shape) && Inv(Now(), shape)
      ensures Unplugged(old(Now()), Now(), shape, h, port)
      ensures h < |dev| && dev[h] == old(dev)[h].(children := old(dev)[h].children[port := None])
    {
      hide Inv, CutOff;
      ghost var w := Now();
      InvSizes(w, shape, h);
      var child := dev[h].children[port];
      if child.Some? {
        ghost var top := Deepest(shape);
        ChildDeeper(w, shape, h, port, child.value);
        Disconnect(child.value, top);
        CutKeeps(w, Now(), shape, h, port, child.value);
        assert Now() == World(dev, hub, stor, hid, devgone);
        ghost var cut := Now();
        dev := dev[h := dev[h].(children := dev[h].children[port := None])];
        assert Now() == Unlinked(cut, h, port);
      } else {
        SameLink(w, h, port);
        dev := dev[h := dev[h].(children := dev[h].children[port := None])];
      }
    }

    // the device in its new slot linked and enumerated, or freed again
    method AddChild(h: nat, port: nat, s: nat, a: Answers, ghost mid: World)
      requires Inv(mid, shape) && Live(mid, h) && port < mid.dev[h].maxchild && Plausible(a)
      requires mid.dev[h].maxchild <= |mid.dev[h].children| == USB_MAXCHILDREN && mid.dev[h].children[port].None?
      requires s < |mid.dev| && mid.dev[s] == Free() && s < USB_MAX_DEVICE
      requires Now() == mid.(dev := mid.dev[s := Free().(devnum := s + 1)])
      modifies this
      ensures root == old(root) && Inv(Now(), shape) && h < |dev| == |mid.dev| && port < |dev[h].children|
      ensures dev[h].children[port].Some? <==> Answered(a, true)
      ensures dev[h].children[port].Some? ==> dev[h].children[port] == Some(s) && Plugged(mid, Now(), h, port, s)
      ensures dev[h].children[port].Some? ==> Attached(Linked(mid, h, port, s), Now(), s, a)
      ensures dev[h].children[port].None? ==>
        Now() == mid.(dev := mid.dev[h := mid.dev[h].(portnr := port)], gone := devgone)
    {
      hide Inv, CutOff, Attached;
      InvSizes(mid, shape, h);
      dev := dev[h := dev[h].(portnr := port, children := dev[h].children[port := Some(s)])];
      dev := dev[s := dev[s].(parent := Some(h))];
      ghost var w := Linked(mid, h, port, s);
      assert dev == w.dev;
      LinkKeeps(mid, shape, h, port, s);
      shape := Planted(shape, h, port, s);
      var ok := NewDevice(s, a);
      if !ok {
        ghost var failed := Now();
        BareSlot(failed, shape, s);
        FreedIsCut(failed, shape, s);
        FreeDevice(dev[s].devnum);
        ghost var freed := Now();
        CutKeeps(failed, freed, shape, h, port, s);
        dev := dev[h := dev[h].(children := dev[h].children[port := None])];
        assert Now() == Unlinked(freed, h, port);
        FailedSame(mid, failed, Now(), shape, h, port, s);
      }
    }

    /** usb_hub_port_connect_change: the tree is a forest and no table names a free slot, whatever the
        change and whatever the device answers; what was at the port is cut off whole, and a device that
        does not come up leaves nothing. */
    method ConnectChange(h: nat, port: nat, c: Change) returns (r: int, ghost mid: World)
      requires Inv(Now(), shape) && Live(Now(), h) && port < dev[h].maxchild && Plausible(c.answers)
      modifies this
      ensures root == old(root) && Inv(Now(), shape) && port < |old(dev)[h].children|
      ensures var had := old(dev)[h].children[port].Some?;
        if had || (!c.connected && !c.enabled) then Unplugged(old(Now()), mid, old(shape), h, port)
        else mid == old(Now())
      ensures r == 0 <==> !c.connected && (!c.enabled || old(dev)[h].children[port].Some?)
      ensures r <= 0 ==> Now() == mid
      ensures r > 0 <==> c.connected && c.steady && c.reset && exists s | 0 <= s < |mid.dev| :: mid.dev[s].devnum == -1
      ensures r > 0 ==> h < |dev| && port < |dev[h].children|
      ensures r > 0 ==> (dev[h].children[port].Some? <==> Answered(c.answers, true))
      ensures Live(mid, h)
      ensures r > 0 ==> h < |dev| == |mid.dev| && port < |dev[h].children|
      ensures r > 0 && dev[h].children[port].Some? ==> var s := dev[h].children[port].value;
        && Plugged(mid, Now(), h, port, s) && (forall t | 0 <= t < s :: mid.dev[t].devnum != -1)
        && Attached(Linked(mid, h, port, s), Now(), s, c.answers)
      ensures r > 0 && dev[h].children[port].None? ==>
        Now() == mid.(dev := mid.dev[h := mid.dev[h].(portnr := port)], gone := devgone)
    {
      hide Inv, CutOff, OnlyDevice, Attached;
      ghost var w := Now();
      InvSizes(w, shape, h);
      if (!c.connected && !c.enabled) || dev[h].children[port].Some? {
        RemoveChild(h, port);
        if !c.connected {
          return 0, Now();
        }
      }
      mid := Now();
      if !c.steady || !c.connected || !c.reset {
        return -1, mid;
      }
      var s := AllocDevice();
      if s.None? {
        return -1, mid;
      }
      r := 1;
      InvSizes(mid, shape, h);
      AddChild(h, port, s.value, c.answers, mid);
    }

    ghost predicate Valid()
      reads this
    {
      if root.Some? then Inv(Now(), shape) && RootOk(Now(), root.value) else Quiet(Now())
    }

    constructor ()
      ensures Valid() && root == None
    {
      root := None;
      dev, hub := [], [];
      stor, hid := [None, None, None, None], [None, None, None, None];
      devgone := None;
      shape := Shape([], []);
    }

    /** The stack brought up: every slot free, the root hub in the first. */
    method Start(a: Answers)
      requires Valid() && root.None? && Plausible(a) && IsHub(a)
      modifies this
      ensures Valid()
      ensures root.Some? ==> forall s | 0 <= s < |dev| :: Live(Now(), s) <==> s == root.value
      ensures root.Some? <==> Answered(a, false)
      ensures root.Some? ==>
        root.value < |dev| && dev[root.value].privptr.Some? == (a.hub.descriptor && a.hub.status)
    {
      hide Inv, RootOk, OnlyDevice, Offered;
      dev := seq(USB_MAX_DEVICE, _ => Free());
      hub := seq(USB_MAX_HUB, _ => None);
      devgone := None;
      shape := Shape(seq(USB_MAX_DEVICE, _ => 0), seq(USB_MAX_DEVICE, _ => 0));
      EmptyInv(Now(), shape);
      assert dev[0].devnum == -1;
      var s := AllocDevice();
      assert s == Some(0);
      FirstInv(Now(), shape);
      ghost var w := Now();
      FreesRoom(hub);
      assert hub[0].None?;
      var ok := NewDevice(0, a);
      if ok {
        root := Some(0);
        FirstRoot(w, Now());
      } else {
        BareSlot(Now(), shape, 0);
        BareQuiet(w, Now(), shape, 0);
        FreeDevice(dev[0].devnum);
      }
    }

    /** The stack taken down: every device but the root is gone and no table names anything. */
    method Stop()
      requires Valid() && root.Some?
      modifies this
      ensures Valid() && root.None?
      ensures forall s | 0 <= s < |dev| && Some(s) != old(root) :: dev[s] == Free()
      ensures (forall i | 0 <= i < |hub| :: hub[i].None?) && (devgone.None? || devgone == old(root))
    {
      hide Inv, RootOk;
      var x := root.value;
      RootLive(Now(), x);
      InvSizes(Now(), shape, x);
      var i := 0;
      while i < dev[x].maxchild
        invariant root == Some(x) && Inv(Now(), shape) && RootOk(Now(), x) && Live(Now(), x)
        invariant |dev[x].children| == USB_MAXCHILDREN && i <= dev[x].maxchild <= USB_MAXCHILDREN
        invariant forall k | 0 <= k < i :: dev[x].children[k].None?
      {
        ghost var w := Now();
        RemoveChild(x, i);
        UnpluggedRoot(w, Now(), shape, x, x, i);
        RootLive(Now(), x);
        i := i + 1;
      }
      OnlyRootLeft(Now(), shape, x);
      HubOnce(Now(), shape, x);
      if dev[x].privptr.Some? {
        HubDisconnect(x);
      }
      root := None;
    }

    /** One event. */
    method Step(e: Event)
      requires Valid() && EventOk(e)
      modifies this
      ensures Valid()
    {
      hide Inv, RootOk, Unplugged, Plugged, Quiet;
      match e
      case Poll(i, port, c) =>
        if root.Some? && i < |hub| && hub[i].Some? {
          var h := hub[i].value;
          HubLive(Now(), shape, i, h);
          if port < dev[h].maxchild {
            ghost var w, g := Now(), shape;
            var r, mid := ConnectChange(h, port, c);
            if mid != w {
              UnpluggedRoot(w, mid, g, root.value, h, port);
            }
            if r > 0 && dev[h].children[port].Some? {
              PluggedRoot(mid, Now(), root.value, h, port, dev[h].children[port].value);
            } else if r > 0 {
              PortnrRoot(mid, Now(), root.value, h, port);
            }
          }
        }
      case Pulled(s) =>
        if root.Some? && s < |dev| && dev[s].devnum != -1 && s != root.value {
          ghost var w := Now();
          devgone := Some(s);
          GoneKeeps(w, Now(), shape, root.value);
        }
      case Up(a) =>
        if root.None? {
          Start(a);
        }
      case Down =>
        if root.Some? {
          Stop();
        }
    }

    /** Every run: the slots in use are one tree and no table entry names a free slot. */
    method Run(events: seq<Event>)
      requires Valid() && forall k | 0 <= k < |events| :: EventOk(events[k])
      modifies this
      ensures Valid()
      ensures root.Some? ==> forall s | 0 <= s < |dev| && Live(Now(), s) :: Below(Now(), shape, root.value, s)
      ensures root.Some? ==> forall i | 0 <= i < |stor| && stor[i].Some? :: Live(Now(), stor[i].value)
      ensures root.Some? ==> forall i | 0 <= i < |hid| && hid[i].Some? :: Live(Now(), hid[i].value)
      ensures root.Some? ==> forall i | 0 <= i < |hub| && hub[i].Some? :: Live(Now(), hub[i].value)
      ensures root.Some? && devgone.Some? ==> Live(Now(), devgone.value)
    {
      for k := 0 to |events|
        invariant Valid()
      {
        Step(events[k]);
      }
      if root.Some? {
        forall s | 0 <= s < |dev| && Live(Now(), s) ensures Below(Now(), shape, root.value, s) {
          UnderRoot(Now(), shape, root.value, s);
        }
      }
    }
  }

  lemma InvSizes(w: World, g: Shape, x: nat)
    requires Inv(w, g) && Live(w, x)
    ensures Sized(w, g) && SlotOk(w, x)
  {
  }

  lemma PartKeeps(w0: World, w: World, g: Shape, x: nat, n: nat)
    requires Part(w0, w, g, x, n) && Inv(w0, g)
    ensures x < |w0.dev| == |w.dev| && Sized(w0, g) && Sized(w, g)
    ensures |w.dev[x].children| == |w0.dev[x].children| == USB_MAXCHILDREN && w.dev[x].maxchild == w0.dev[x].maxchild
    ensures w0.dev[x].maxchild <= USB_MAXCHILDREN && w.dev[x].devnum == w0.dev[x].devnum
    ensures n < USB_MAXCHILDREN ==> w.dev[x].children[n] == w0.dev[x].children[n]
  {
    assert SlotOk(w0, x);
  }

  lemma {:induction false} ChildDeeper(w: World, g: Shape, x: nat, p: nat, c: nat)
    requires Inv(w, g) && Live(w, x) && p < |w.dev[x].children| && w.dev[x].children[p] == Some(c)
    ensures Live(w, c) && Sized(w, g) && g.depth[c] == g.depth[x] + 1 && !Below(w, g, c, x)
  {
    assert SlotOk(w, x) && DownOk(w, g, x, p) && UpOk(w, g, c);
    CutLeavesParent(w, g, x, c);
  }

  // at most one hub entry names a device
  lemma HubOnce(w: World, g: Shape, x: nat)
    requires Inv(w, g)
    ensures forall i, j | 0 <= i < j < |w.hub| :: w.hub[i] == Some(x) ==> w.hub[j] != Some(x)
  {
  }

  lemma OnlyNothing(w: World, s: nat)
    requires s < |w.dev|
    ensures OnlyDevice(w, w, s)
  {
  }

  lemma OnlyTwice(w0: World, w: World, w': World, s: nat)
    requires OnlyDevice(w0, w, s) && OnlyDevice(w, w', s)
    ensures OnlyDevice(w0, w', s) && |w'.dev| == |w.dev|
    ensures w'.dev[s].children == w.dev[s].children && (Live(w, s) ==> Live(w', s))
  {
  }

  // a driver bound to an interface, with an entry in its table
  lemma BoundKeeps(w: World, w': World, g: Shape, s: nat, n: nat, v: Driver)
    requires Inv(w, g) && Live(w, s) && n < |w.dev[s].bound| && w.dev[s].bound[n].None?
    requires w.dev[s].children == NoChildren()
    requires w'.dev == w.dev[s := w.dev[s].(bound := w.dev[s].bound[n := Some(v)])]
    requires w'.hub == w.hub && w'.gone == w.gone
    requires v == Storage ==> w'.hid == w.hid && Entered(w.stor, w'.stor, s)
    requires v == Hid ==> w'.stor == w.stor && Entered(w.hid, w'.hid, s)
    ensures Inv(w', g) && OnlyDevice(w, w', s)
  {
    hide SlotOk, DownOk, UpOk;
    StillBound(w.dev[s].bound, n, v);
    SlotSmall(w, g, s);
    LeafForest(w, w', g, s);
  }

  lemma SlotSmall(w: World, g: Shape, s: nat)
    requires Sized(w, g) && Forest(w, g) && s < |w.dev|
    ensures w.dev[s].maxchild <= USB_MAXCHILDREN
  {
    assert SlotOk(w, s);
  }

  lemma StillBound(b: seq<Option<Driver>>, n: nat, v: Driver)
    requires n < |b| && b[n].None?
    ensures Some(v) in b[n := Some(v)] && forall u :: Some(u) in b ==> Some(u) in b[n := Some(v)]
  {
    assert b[n := Some(v)][n] == Some(v);
    forall u | Some(u) in b ensures Some(u) in b[n := Some(v)] {
      var k :| 0 <= k < |b| && b[k] == Some(u);
      assert b[n := Some(v)][k] == Some(u);
    }
  }

  lemma BareSlot(w: World, g: Shape, s: nat)
    requires Inv(w, g) && Bare(w, s)
    ensures Sized(w, g) && w.dev[s].devnum == s + 1
  {
    assert SlotOk(w, s);
  }

  // the interfaces of the configuration, no driver at any of them yet
  lemma BareKeeps(w: World, w': World, g: Shape, s: nat, b: seq<Option<Driver>>)
    requires Inv(w, g) && Bare(w, s) && forall i | 0 <= i < |b| :: b[i].None?
    requires w' == w.(dev := w.dev[s := w.dev[s].(bound := b)])
    ensures Inv(w', g) && OnlyDevice(w, w', s) && Bare(w', s)
  {
    SlotSmall(w, g, s);
    LeafForest(w, w', g, s);
  }

  // a hub, in the table or not
  lemma HubKeeps(w: World, w': World, g: Shape, s: nat, e: Option<nat>)
    requires Inv(w, g) && Bare(w, s) && |w'.dev| == |w.dev| && w'.dev[s].maxchild <= USB_MAXCHILDREN
    requires w'.dev == w.dev[s := w.dev[s].(maxchild := w'.dev[s].maxchild, privptr := e)]
    requires w'.stor == w.stor && w'.hid == w.hid && w'.gone == w.gone
    requires e.None? ==> w'.hub == w.hub
    requires e.Some? ==> e.value < |w.hub| && w.hub[e.value].None? && w'.hub == w.hub[e.value := Some(s)]
    ensures Inv(w', g) && OnlyDevice(w, w', s)
  {
    hide SlotOk, DownOk, UpOk;
    LeafForest(w, w', g, s);
  }

  lemma PulledKeeps(w: World, w': World, g: Shape, s: nat)
    requires Inv(w, g) && Bare(w, s) && w' == w.(gone := w'.gone) && (w'.gone == w.gone || w'.gone == Some(s))
    ensures Inv(w', g) && OnlyDevice(w, w', s) && Bare(w', s)
  {
    SlotSmall(w, g, s);
    LeafForest(w, w', g, s);
  }

  lemma PortOf(w: World, g: Shape, s: nat, p: nat)
    requires Inv(w, g) && s < |w.dev| && w.dev[s].parent == Some(p)
    ensures p < |w.dev| == |g.port| && p != s && |w.dev[p].children| == USB_MAXCHILDREN
    ensures g.port[s] < w.dev[p].maxchild <= USB_MAXCHILDREN && w.dev[p].children[g.port[s]] == Some(s)
  {
    assert UpOk(w, g, s);
    assert SlotOk(w, p) && DownOk(w, g, p, g.port[s]);
  }

  ghost function Deepest(g: Shape): (top: nat)
    ensures forall s | 0 <= s < |g.depth| :: g.depth[s] < top
  {
    Max(g.depth) + 1
  }

  ghost function Max(d: seq<nat>): (m: nat)
    ensures forall s | 0 <= s < |d| :: d[s] <= m
  {
    if d == [] then 0 else
      var m := Max(d[..|d|-1]);
      if d[|d|-1] > m then d[|d|-1] else m
  }

  lemma SameLink(w: World, h: nat, port: nat)
    requires h < |w.dev| && port < |w.dev[h].children| && w.dev[h].children[port].None?
    ensures Unlinked(w, h, port) == w && w.dev[h].children[port := None] == w.dev[h].children
  {
    assert w.dev[h].children[port := None] == w.dev[h].children;
    assert w.dev[h := w.dev[h]] == w.dev;
  }

  // a device that failed left no entry behind
  lemma FailedSame(mid: World, failed: World, w: World, g: Shape, h: nat, port: nat, s: nat)
    requires |mid.dev| == USB_MAX_DEVICE && h < |mid.dev| && s < |mid.dev| && port < |mid.dev[h].children| && s != h
    requires mid.dev[s] == Free() && mid.dev[h].children[port].None?
    requires OnlyDevice(Linked(mid, h, port, s), failed, s) && Inv(failed, g) && Bare(failed, s)
    requires var cut := failed.(dev := failed.dev[s := Free()], gone := w.gone);
      w == Unlinked(cut, h, port)
    ensures w == mid.(dev := mid.dev[h := mid.dev[h].(portnr := port)], gone := w.gone)
  {
    assert w.dev == mid.dev[h := mid.dev[h].(portnr := port)] by {
      assert w.dev[h].children == mid.dev[h].children;
      assert forall t | 0 <= t < |w.dev| && t != h :: w.dev[t] == mid.dev[t];
    }
    assert forall i | 0 <= i < |mid.hub| :: failed.hub[i] != Some(s) by {
      assert HubsOk(failed);
    }
    assert failed.hub == mid.hub;
    assert failed.stor == mid.stor by {
      assert DriverOk(failed, failed.stor, Storage);
    }
    assert failed.hid == mid.hid by {
      assert DriverOk(failed, failed.hid, Hid);
    }
  }

  lemma EmptyInv(w: World, g: Shape)
    requires Sized(w, g) && Quiet(w) && w.gone.None?
    requires (forall s | 0 <= s < |w.dev| :: w.dev[s] == Free()) && (forall i | 0 <= i < |w.hub| :: w.hub[i].None?)
    ensures Inv(w, g)
  {
  }

  lemma FirstInv(w: World, g: Shape)
    requires Sized(w, g) && Quiet(w) && w.gone.None? && w.dev[0] == Free().(devnum := 1)
    requires (forall s | 0 < s < |w.dev| :: w.dev[s] == Free()) && (forall i | 0 <= i < |w.hub| :: w.hub[i].None?)
    ensures Inv(w, g) && Bare(w, 0)
  {
  }

  lemma FirstRoot(w: World, w': World)
    requires |w.dev| > 0 && w.dev[0] == Free().(devnum := 1) && (forall s | 0 < s < |w.dev| :: w.dev[s] == Free())
    requires OnlyDevice(w, w', 0) && forall v :: Some(v) !in w'.dev[0].bound
    ensures RootOk(w', 0) && |w'.dev| == |w.dev| && forall s | 0 <= s < |w'.dev| :: Live(w', s) <==> s == 0
  {
  }

  // a bare device is in no driver's table
  lemma BareQuiet(w: World, w': World, g: Shape, s: nat)
    requires Quiet(w) && OnlyDevice(w, w', s) && Inv(w', g) && Bare(w', s)
    ensures w'.stor == w.stor && w'.hid == w.hid
  {
  }

  lemma RootLive(w: World, root: nat)
    requires RootOk(w, root)
    ensures Live(w, root)
  {
  }

  lemma HubLive(w: World, g: Shape, i: nat, h: nat)
    requires Inv(w, g) && i < |w.hub| && w.hub[i] == Some(h)
    ensures Live(w, h)
  {
  }

  lemma GoneKeeps(w: World, w': World, g: Shape, root: nat)
    requires Inv(w, g) && RootOk(w, root) && w' == w.(gone := w'.gone) && (w'.gone.Some? ==> Live(w, w'.gone.value))
    ensures Inv(w', g) && RootOk(w', root)
  {
    assert Forest(w', g) by {
      forall s | 0 <= s < |w'.dev| ensures SlotOk(w', s) && UpOk(w', g, s) {
        assert SlotOk(w, s) && UpOk(w, g, s);
      }
      forall s, q | 0 <= s < |w'.dev| && 0 <= q < USB_MAXCHILDREN ensures DownOk(w', g, s, q) {
        assert DownOk(w, g, s, q);
      }
    }
  }

  // the root survives what happens at a hub's port
  lemma UnpluggedRoot(w: World, mid: World, g: Shape, root: nat, h: nat, port: nat)
    requires Inv(w, g) && RootOk(w, root) && Unplugged(w, mid, g, h, port)
    ensures RootOk(mid, root)
  {
    match w.dev[h].children[port]
    case None =>
    case Some(c) =>
      assert SlotOk(w, h) && DownOk(w, g, h, port);
      assert !Below(w, g, c, root);
  }

  lemma PluggedRoot(mid: World, w: World, root: nat, h: nat, port: nat, s: nat)
    requires RootOk(mid, root) && Live(mid, h) && Plugged(mid, w, h, port, s)
    ensures RootOk(w, root)
  {
  }

  lemma PortnrRoot(mid: World, w: World, root: nat, h: nat, port: nat)
    requires RootOk(mid, root) && h < |mid.dev|
    requires w == mid.(dev := mid.dev[h := mid.dev[h].(portnr := port)], gone := w.gone)
    ensures RootOk(w, root)
  {
  }

  // with no child left, the root is alone
  lemma OnlyRootLeft(w: World, g: Shape, root: nat)
    requires Inv(w, g) && RootOk(w, root)
    requires forall k | 0 <= k < w.dev[root].maxchild && k < |w.dev[root].children| :: w.dev[root].children[k].None?
    ensures forall s | 0 <= s < |w.dev| && s != root :: w.dev[s] == Free()
    ensures forall i | 0 <= i < |w.hub| && w.hub[i].Some? :: w.hub[i] == Some(root)
    ensures w.gone.None? || w.gone == Some(root)
    ensures Quiet(w) && Live(w, root) && (w.dev[root].privptr.None? ==> forall i | 0 <= i < |w.hub| :: w.hub[i].None?)
  {
    forall s | 0 <= s < |w.dev| && s != root ensures w.dev[s] == Free() {
      assert SlotOk(w, s);
      if Live(w, s) {
        UnderRoot(w, g, root, s);
        KidsCover(w, g, root, s);
        NoKids(w, g, root, w.dev[root].maxchild, s);
      }
    }
    assert forall i | 0 <= i < |w.stor| :: w.stor[i].None? by {
      assert DriverOk(w, w.stor, Storage);
    }
    assert forall i | 0 <= i < |w.hid| :: w.hid[i].None? by {
      assert DriverOk(w, w.hid, Hid);
    }
  }

  lemma {:induction false} NoKids(w: World, g: Shape, x: nat, n: nat, s: nat)
    requires Sized(w, g) && x < |w.dev| && s < |w.dev| && n <= |w.dev[x].children|
    requires forall k | 0 <= k < n :: w.dev[x].children[k].None?
    ensures !Kids(w, g, x, n, s)
  {
    if n > 0 {
      NoKids(w, g, x, n - 1, s);
    }
  }
}
